# A verified model of the e-ink hardware composer

The repository is an Android hardware composer for e-ink panels. This project models the parts of it that compute
something difficult, and proves what they are for.

- **Rectangle separation** (`separate_rects.cpp`): a left-to-right sweep that turns up to 64 overlapping rectangles
  into disjoint ones, each labelled with the inputs that cover it. The loops are kept, with their ordered event sets,
  the cross section and the map of started rectangles. Rectangles are half-open: `[left, right) x [top, bottom)`.
  The separation is defined as the maximal horizontal runs of one and the same slice of the vertical cross section;
  the sweep emits exactly these, in one order, and the labelled partition, the absence of avoidable splits and the
  bound on their number are then theorems about that definition. The 64-bit id sets are real bit-vectors.
- **Pixel kernels** (`hwcomposer.cpp`, and their ARM forms in `rgb888_to_gray_256_neon.s`): error diffusion to
  sixteen and to two levels, the gamma table, four nibble packers and two colour filter mosaics. Each unrolled loop is
  proved against a closed form or a pixel-by-pixel specification. For the dither loops and the mosaics that
  specification is then proved equal to a reference that shares no definition with it: Floyd and Steinberg's
  diffusion told from the receiving pixel (`FloydSteinberg`), and the filter told nibble by nibble (`ColourFilter`).
- **The panel's power and refresh modes** (`hwcomposer.cpp`): the four functions that decide with which mode a frame
  is queued, over every sequence of calls.
- **The vsync thread** (`worker.cpp`, `vsyncworker.cpp`): every interleaving of the worker, one client and the clock.
- **Per-region texturing and blending** (`glworker.cpp`), in exact arithmetic: the shader generator together with
  what its text does when it runs.

## What is worth knowing

- The ARM dither routine moves its pointer into the next residual line by two cells for every four pixels
  (`rgb888_to_gray_256_neon.s:934`), where the C row moves by one cell a pixel. Given the same residual line both
  pack the same nibbles, but they leave the same line for the next row only when no pixel from the fifth on loses more than
  3: `ArmLineAgreesIffQuiet` proves this in both directions, `ArmLineDiffers` gives a row on which the lines differ.
- At the highest gamma level, 80, and at no other, the table loop divides by zero at index 156, with the black part of
  the table written; `InitGammaTable` and `Gray256ToGray16` report this as a fault. A first request for level 0 finds it
  equal to the initial value of `last_gamma_level` and builds no table; `TableOfLastLevel` says so.
- A worker that is told to exit while it waits returns from `Routine` with the lock held (`vsyncworker.cpp:158-161`).
  `ExitCanBlock` gives a run that ends so, and `ExitOutcome` the exact condition, which can be read off when the exit
  request acts: the worker is waiting or woken, or about to enter `Routine`'s critical section with vsync switched off. In
  every other case it finishes, unless vsync is switched while the worker is about to enter that section; then the last
  such switch decides (`InterferedOutcome`). Either end is at most twelve steps of the worker away (`ExitEnds`, `ExitNeverStuck`), and
  after the first one nobody gets the lock again (`ExitWhileWaitingBlocks`).
- `VSyncWorker` does not initialise `enabled_`, so the protocol starts with either value.
- `clock_nanosleep` reports errors by its result and not by -1, so the retry at `vsyncworker.cpp:141` is modelled for
  every result, as it is written.
- The two-level row writes one cell beyond the row (`hwcomposer.cpp:775`). All its stores lie within a line of n cells
  exactly when the row is empty or n exceeds its width (`StoresFitWhen`); the caller allocates exactly the panel's width
  (`hwcomposer.cpp:864-865`), so a rectangle as wide as the panel stores out of bounds (`FullWidthOverflows`),
  which `DitherRect` reports as a fault. Nothing ever depends on what is stored there: lines of any two sizes give
  the same levels (`SizeDoesNotMatter`, `LevelsIgnoreSize`).
- The 3x mosaic expands every pixel of a row of even width; of a row of odd width only the whole groups of six
  (`Mosaic3.Pairs`).
- A layer that is not blended is drawn with its texel's colour and ends the list of layers, but the shader still uses its
  texel's alpha for the coverage it returns (`glworker.cpp:258`): the colour is that of an opaque layer, but the returned
  alpha is 1 exactly when some layer that is drawn has opacity 1 (`ReturnedAlpha`), which such a layer need not have
  (`UnblendedAlpha`).
- Transform flags act as a flip followed by a turn only for some combinations; `FlagsAreFlipsThenTurns` says for which.

## Files

| files | content |
|---|---|
| `IdSets` | the 64-bit id set, its bits as a set of ids, its order |
| `SweepSpec`, `SeparateRects`, `SeparationTheorems` | what the sweep has to emit, the sweep, what follows |
| `ErrorDiffusion`, `DitherLines` | error diffusion pixel by pixel, and the residual lines in place |
| `DitherRow16`, `DitherTheorems` | sixteen levels in C, ranges and conservation |
| `DitherArm`, `DitherArmTheorems` | sixteen levels on ARM, and when it agrees with C |
| `DitherRow2`, `Dither2Theorems` | two levels, and how far residuals drift |
| `FloydSteinberg`, `FloydSteinbergTheorems` | the reference for error diffusion, and that all dither loops compute it |
| `GammaTable` | the table, its cache, and the conversion that uses it |
| `Arithmetic`, `Canvas`, `Packers` | buffers painted row by row; the packers |
| `ColourFilter`, `Mosaic2`, `Mosaic3` | the reference for the colour filter; the two mosaics |
| `EpdMode`, `EpdModeTheorems` | the mode functions, and runs of them |
| `VSyncTiming`, `VSyncProtocol`, `VSyncProtocolTheorems`, `VSyncExit` | the next vsync, the two threads, their runs, and how they end |
| `Blend`, `BlendTheorems` | the generated fragment shader, and what blending it amounts to |
| `TextureMap`, `TextureTheorems`, `RegionColour` | which texels a region shows, without seams, and the final colour |

## Model

| member | source | states |
|---|---|---|
| IdSets.IdSet.Add | separate_rects.h:120-122 | sets exactly the bit of the id: the members become the old members and the id |
| IdSets.IdSet.Subtract | separate_rects.h:124-126 | clears exactly the bit of the id, whether or not it was set |
| IdSets.ShiftIsMask | separate_rects.h:120-126 | for every id below 64, one shifted by the id is the id's own single bit |
| IdSets.MasksDisjoint | separate_rects.h:120-126 | different ids own different bits |
| IdSets.AddIsUnion | separate_rects.h:120-122 | adding to the word is adding to the set it stands for |
| IdSets.SubtractIsDifference | separate_rects.h:124-126 | subtracting from the word is removing from the set it stands for |
| IdSets.SameMembersSameBits | separate_rects.h:136-142 | two words are equal exactly when they stand for the same set, on which the order of started rectangles relies |
| IdSets.BitsTotal | separate_rects.h:140-142 | the order of words compares any two different ones |
| IdSets.LessTransitive | separate_rects.h:140-142 | and is transitive |
| SweepSpec.RegionCover | separate_rects.cpp:262-276 | throughout a slice of the cross section the covering inputs are the slice's set, and there are some |
| SweepSpec.RegionIsUnique | separate_rects.cpp:262-276 | two slices at one abscissa that share a y are the same slice |
| SweepSpec.RunStart | separate_rects.cpp:278-291 | every slice has a left edge: the abscissa since which it has been there without a gap |
| SweepSpec.RunEnd | separate_rects.cpp:294-300 | and a right edge: it disappears at some later abscissa, and not before |
| SeparateRects.InsertEventSpec | separate_rects.cpp:73-75 | inserting keeps the event set ordered and adds exactly the event |
| SeparateRects.EraseEventSpec | separate_rects.cpp:170-180 | erasing keeps it ordered and removes exactly the event |
| SeparateRects.CollectHEvents | separate_rects.cpp:129-146 | the horizontal events are exactly the left and right edges of the valid inputs; empty and inverted ones have none |
| SeparateRects.UpdateVEvents | separate_rects.cpp:157-181 | the vertical events stay exactly the tops and bottoms of the open inputs; both searches find their event, so neither assert can fire |
| SeparateRects.LeaveFinds | separate_rects.cpp:168-173 | the top event of a closing rectangle is in the set |
| SeparateRects.LeaveSweepLine | separate_rects.cpp:175-180 | so is its bottom event once the top is gone, and erasing both leaves the events of the others |
| SeparateRects.OpenIdsAreActive | separate_rects.cpp:183-193 | at the last event of an abscissa the open inputs are those with left <= x < right, and they stay so up to the next event |
| SeparateRects.ScanStep | separate_rects.cpp:212-222 | one event changes the last slice at the same y or opens a new one, and the slice before is then final |
| SeparateRects.IdsBetweenIsCover | separate_rects.cpp:210-216 | once all events at a y are passed, the running set is the set of inputs covering that y |
| SeparateRects.ScanActiveRegions | separate_rects.cpp:205-223 | the scan yields the cross section: all edges, strictly from top to bottom, each with the set covering the strip below it |
| SeparateRects.LastSliceEmpty | separate_rects.cpp:259-267 | the lowest slice is empty, so the third assert cannot fire |
| SeparateRects.SlicesAreRegions | separate_rects.cpp:254-276 | the non-empty slices are exactly the regions of the cross section |
| SeparateRects.InsertStartedSpec | separate_rects.cpp:121-121 | inserting into the map keeps it ordered with one entry for each key |
| SeparateRects.KeyLessTotal | separate_rects.cpp:57-60 | the order of started rectangles compares any two different keys; left is no part of the key |
| SeparateRects.KeyLessTransitive | separate_rects.cpp:57-60 | and is transitive |
| SeparateRects.MarkUnseen | separate_rects.cpp:238-242 | every started rectangle is kept and marked as not seen |
| SeparateRects.MatchRegions | separate_rects.cpp:254-292 | afterwards the map holds the old rectangles, those among the regions marked as seen with the left edge they had, and each new region starting here |
| SeparateRects.EndUnseen | separate_rects.cpp:301-323 | exactly the rectangles not seen are appended, in the map's order, with their right edge here, and leave the map |
| SeparateRects.SettleStop | separate_rects.cpp:236-323 | one stop keeps the invariant: all runs that end left of the stop are emitted, and the map holds the current regions with the abscissa since which they have been open |
| SeparateRects.SettleGap | separate_rects.cpp:189-193 | the invariant carries over to the next abscissa with events |
| SeparateRects.SettledAtEnd | separate_rects.cpp:301-325 | after the last event no started rectangle is left, and the output is the separation |
| SeparateRects.SeparateRects | separate_rects.cpp:94-325 | for at most 64 inputs the separation of the input is appended and what was there before stays in front; for more inputs nothing changes |
| SeparationTheorems.ExactLabelledPartition | separate_rects.h:176-181 | every point lies in at most one output; it lies in one exactly when some input contains it; that output's set is exactly the inputs containing it |
| SeparationTheorems.OutputsDisjoint | separate_rects.h:176-178 | two outputs that share a point are the same |
| SeparationTheorems.CoveredPointEmitted | separate_rects.h:176-178 | a point of some input lies in an output |
| SeparationTheorems.SeparationIsUnique | separate_rects.cpp:301-323 | there is only one separation, order included |
| SeparationTheorems.EmissionOrder | separate_rects.cpp:301-323 | outputs come by right edge, and those with one right edge from top to bottom |
| SeparationTheorems.NoSplitAcross | separate_rects.cpp:278-291 | no two outputs with the same extent and set meet along a vertical edge |
| SeparationTheorems.NoSplitDown | separate_rects.cpp:205-223 | outputs that meet along a horizontal edge have different sets |
| SeparationTheorems.OutputEdges | separate_rects.cpp:129-146 | every edge of an output is an edge of a valid input, and outputs are not empty |
| SeparationTheorems.OutputCount | separate_rects.cpp:94-325 | n valid inputs give at most (2n-1)^2 outputs, and none for n = 0 |
| DitherLines.PixelStep | hwcomposer.cpp:455-476 | one block of the unrolled loop is one pixel of error diffusion: the level, the carry, the three shares below, the cleared cell |
| DitherRow16.LowWord | hwcomposer.cpp:454-524 | the first four pixels of an iteration are four steps of error diffusion |
| DitherRow16.HighWord | hwcomposer.cpp:527-601 | so are the last four |
| DitherRow16.PackedNibbles | hwcomposer.cpp:603-603 | shifting and joining eight levels puts level k into nibble k |
| DitherRow16.Row16 | hwcomposer.cpp:442-606 | nibble k of word j is the level of pixel 8j + k; the next line is that of pixel-by-pixel diffusion; the row's own line is cleared; other words are kept |
| DitherRow16.DitherRow | hwcomposer.cpp:618-627 | row h consumes the line that row h - 1 left and leaves the line for row h + 1, with its own cleared |
| DitherRow16.Gray256ToGray16Dither | hwcomposer.cpp:609-632 | every word of every row holds the levels of its pixels, with the residual line that the rows above determine; words beyond the image are kept |
| DitherTheorems.ErrorRange | hwcomposer.cpp:455-461 | errors are between 0 and 15, carries between 0 and 6, nothing leaves 0..255 |
| DitherTheorems.LineRange | hwcomposer.cpp:466-476 | a line being filled stays within small bounds, so no 16-bit store wraps |
| DitherTheorems.ResidualRange | hwcomposer.cpp:618-627 | every row starts from residuals between 0 and 6, for images of any size |
| DitherTheorems.RowBalance | hwcomposer.cpp:442-606 | what a row loses is the excess over 255 and at most 3 a pixel and 2 more |
| DitherTheorems.ImageConservation | hwcomposer.cpp:609-632 | sixteen times the levels of any image fall short of its pixels by the excess over 255 and by between 0 and 3hw + 8h + 6w; without pixels above 243 there is no excess |
| DitherTheorems.ImageOfLevels | hwcomposer.cpp:609-632 | the nibbles of the written buffer add up to the levels of the image |
| DitherTheorems.BufferConservation | hwcomposer.cpp:609-632 | so do sixteen times the nibbles of the written buffer |
| FloydSteinbergTheorems.LevelAndError | hwcomposer.cpp:455-461 | for either number of levels: sixteen times the level and the error make up the pixel with what has been left for it, or 255 where that is more |
| FloydSteinbergTheorems.LineGathers | hwcomposer.cpp:466-476 | whatever the order of the stores, a cell of the next line ends up with the sum of the shares it receives, as far as its width holds it |
| FloydSteinbergTheorems.RowHands | hwcomposer.cpp:442-606 | from a cleared line that is 5/16 of the error above, 3/16 of the one to its right and 1/16 of the one to its left |
| FloydSteinbergTheorems.ResidualIsAbove | hwcomposer.cpp:618-627 | the residual line of every row is what Floyd and Steinberg's diffusion has above it |
| FloydSteinbergTheorems.DitherIsFloydSteinberg | hwcomposer.cpp:609-632 | hexadecimal digit k of every row of the written buffer is the level that Floyd and Steinberg's diffusion of the image gives pixel k |
| DitherArm.ArmPixel | rgb888_to_gray_256_neon.s:753-798 | one pixel of the routine is one pixel of error diffusion, with cells where its pointer puts them |
| DitherArm.ArmLowPair | rgb888_to_gray_256_neon.s:753-841 | the first two pixels of an iteration |
| DitherArm.ArmHighPair | rgb888_to_gray_256_neon.s:843-930 | the last two |
| DitherArm.SumsUnsigned | rgb888_to_gray_256_neon.s:755-762 | no sum of pixel, residual and carry is negative, so the unsigned comparison is the one modelled |
| DitherArm.ArmRow | rgb888_to_gray_256_neon.s:739-938 | nibble k of halfword j is the level of pixel 4j + k, as in the C row; the residuals go where the pointer advance of two cells puts them; the row's own line is cleared; lines of halfwords stay such |
| FloydSteinbergTheorems.ArmIsFloydSteinberg | rgb888_to_gray_256_neon.s:739-938 | digit k of what the routine writes is the level of pixel k in the diffusion, for any halfwords above |
| FloydSteinbergTheorems.ArmLineIs | rgb888_to_gray_256_neon.s:739-938 | and each cell of the next line receives what the routine's own positions give it, modulo 65536 |
| DitherArmTheorems.ArmLineRange | rgb888_to_gray_256_neon.s:800-929 | cells of the ARM line stay within 0..12, so no halfword store wraps |
| DitherArmTheorems.ArmLineAgreesIffQuiet | rgb888_to_gray_256_neon.s:931-936 | the ARM row and the C row leave the same line exactly when no pixel from the fifth on loses more than 3 |
| DitherArmTheorems.LeadVanishesOnlyWhenQuiet | rgb888_to_gray_256_neon.s:931-936 | if some pixel does, the first moments of the two lines differ |
| DitherArmTheorems.ArmLineDiffers | rgb888_to_gray_256_neon.s:931-936 | a row of eight pixels on which the two lines differ |
| DitherRow2.Row2 | hwcomposer.cpp:712-780 | nibble k of byte j is the level of pixel 2j + k; the next line is that of pixel-by-pixel diffusion, with one cell written beyond the row; the own line is cleared |
| DitherRow2.StoresFitWhen | hwcomposer.cpp:742-775 | all stores of a row of even width lie within the line exactly when the row is empty or the line is longer |
| DitherRow2.FullWidthOverflows | hwcomposer.cpp:864-888 | on a line as long as the row, which is what is allocated, one store lies beyond the end |
| DitherRow2.SpillStored | hwcomposer.cpp:764-775 | that cell receives the last pixel's lower right share |
| DitherRow2.OthersKept | hwcomposer.cpp:742-775 | cells outside the stored ones are kept |
| DitherRow2.DitherRect | hwcomposer.cpp:885-891 | a fault exactly when there is a row and its stores do not fit the line; otherwise every row holds the levels its pixels and the lines above determine, whichever of the two buffers it starts with |
| DitherRow2.RowsOfRect | hwcomposer.cpp:885-885 | the rows are those from the top to the bottom, and no lower than the panel |
| Dither2Theorems.LevelsBlackOrWhite | hwcomposer.cpp:712-780 | only nibbles 0 and 15 are written, 15 exactly from 0x80 on |
| Dither2Theorems.ErrorRange2 | hwcomposer.cpp:725-737 | how far an error can fall below zero, given how far residuals can |
| Dither2Theorems.DriftBound | hwcomposer.cpp:885-891 | after h rows residuals are between -(63 + 3h) and 69 and the next line is cleared, as long as that bound fits 16 bits |
| FloydSteinbergTheorems.LinesAreAbove | hwcomposer.cpp:885-891 | in two levels too, for any number of rows, wrapped 16-bit stores included |
| FloydSteinbergTheorems.RectIsFloydSteinberg | hwcomposer.cpp:885-891 | so the nibbles written for a rectangle are those of the diffusion to two levels |
| FloydSteinbergTheorems.RowsOfSource | hwcomposer.cpp:869-887 | and its rows are the bytes of the source from the offset on |
| Dither2Theorems.SizeDoesNotMatter | hwcomposer.cpp:864-891 | for lines of any two sizes the residuals of every row are the same: the cell beyond the row is stored to and never read |
| Dither2Theorems.LevelsIgnoreSize | hwcomposer.cpp:764-777 | nor do the written levels depend on it |
| GammaTable.Gamma.InitGammaTable | hwcomposer.cpp:260-301 | a level below 80 gives exactly the specified table; level 80, and only it, divides by zero with the black entries written; levels out of range change nothing |
| GammaTable.Gamma.FillTable | hwcomposer.cpp:280-300 | the loop that spends its own remainder writes the specified entries |
| GammaTable.Gamma.Gray256ToGray16 | hwcomposer.cpp:634-663 | unless level 80 is requested, the cache leaves the right table in place, every byte is the entry of its first pixel and sixteen times that of its second, and the order of pixels is kept |
| GammaTable.Gamma.PackImage | hwcomposer.cpp:646-661 | both nibbles of every byte are the entries of its two pixels; other bytes are kept |
| GammaTable.TableMonotone | hwcomposer.cpp:284-300 | a brighter pixel never gets a darker level, and levels are 0 to 15 |
| GammaTable.TableCounts | hwcomposer.cpp:272-300 | at level l black gets the first 16 + 2l values, white the last 16 + l/2, and the 14 levels between a fourteenth of the rest each, the first ones one more |
| GammaTable.BandSizes | hwcomposer.cpp:290-298 | the 14 bands are not empty and differ by at most one, larger ones first |
| GammaTable.TableOfLastLevel | hwcomposer.cpp:637-640 | over any sequence of requests: a fault if 80 was among them; else the table of the last level in range, once a level in range other than 0 has been asked for; before that none |
| GammaTable.Gamma.OrderOfLevels | hwcomposer.cpp:646-661 | in a converted image a brighter pixel never has a darker level |
| GammaTable.Level80DividesByZero | hwcomposer.cpp:280-297 | at level 80, and only there, the divisor is zero, and index 156 reaches it |
| Packers.UnpackPair | hwcomposer.cpp:671-681 | the two nibbles of a packed byte are the top halves of its pixels |
| Packers.LogoGray256ToGray16 | hwcomposer.cpp:665-684 | the byte packer writes the packed image and nothing else |
| Packers.PackWordsIsPackPairs | hwcomposer.cpp:835-845 | masks and shifts on two words place the same nibbles as four byte packings |
| Packers.Luma8bitTo4bit | hwcomposer.cpp:828-855 | the word packer writes the packed image and nothing else |
| Packers.LanesArePairs | rgb888_to_gray_256_neon.s:976-983 | the vector instructions place the same nibbles as eight byte packings |
| Packers.NeonPack16 | rgb888_to_gray_256_neon.s:955-999 | the vector packer writes the packed image and nothing else |
| Packers.NeonPack32 | rgb888_to_gray_256_neon.s:1005-1055 | so does the one that takes 32 pixels at a time |
| Packers.PackersAgree | hwcomposer.cpp:828-855 | on rows of whole blocks of 32 pixels the images that the four packers write are the same |
| Packers.PackedByte | hwcomposer.cpp:665-684 | in the packed image, which all four reach, the nibbles of a byte are the top halves of its two pixels, and bytes outside the rows are kept |
| Mosaic2.RedLane | hwcomposer.cpp:1731-1736 | in the sum of four masked pixels the red nibble is the average of the four reds: no lane runs into the next |
| Mosaic2.GreenLane | hwcomposer.cpp:1731-1737 | the same for green |
| Mosaic2.BlueLane | hwcomposer.cpp:1731-1738 | the same for blue |
| Mosaic2.MaskedIsAverage | hwcomposer.cpp:1730-1741 | the averages of the optimised form are the floor averages of the channels, for any four pixels |
| Mosaic2.ChannelsAreAverage | hwcomposer.cpp:1538-1556 | so are those of the original form |
| Mosaic2.BlockBytes | hwcomposer.cpp:1758-1794 | which two channels a block contributes to its two bytes, by the phase of the filter |
| Mosaic2.FirstPhaseTurn | hwcomposer.cpp:1759-1769 | three blocks in the first phase write six bytes of the mosaic |
| Mosaic2.SecondPhaseTurn | hwcomposer.cpp:1771-1781 | the same in the second phase |
| Mosaic2.ThirdPhaseTurn | hwcomposer.cpp:1783-1793 | the same in the third phase |
| Mosaic2.Rgb888ToColorEink2 | hwcomposer.cpp:1743-1798 | the optimised form writes the mosaic over what was there |
| Mosaic2.OriginalColorEink2 | hwcomposer.cpp:1523-1724 | the original form writes the same mosaic, for every image |
| Mosaic2.MosaicHolds | hwcomposer.cpp:1743-1798 | nibble (x, y) is the floor average, over the four pixels of the block (x/2, y/2), of bits 4, 20 or 12 on, by (x + 2y) mod 3 |
| Mosaic2.MosaicKeeps | hwcomposer.cpp:1748-1759 | bytes that hold no nibble of the mosaic are kept |
| Mosaic3.PairBytes | hwcomposer.cpp:945-982 | the three bytes of two pixels show each of them three times |
| Mosaic3.SixPixels | hwcomposer.cpp:919-983 | six pixels write 27 bytes of the picture |
| Mosaic3.FourPixels | hwcomposer.cpp:985-1029 | the four pixels left over write 18 more |
| Mosaic3.TwoPixels | hwcomposer.cpp:1030-1054 | the two left over write 9 |
| Mosaic3.Rgb888ToColorEink | hwcomposer.cpp:900-1056 | the whole picture is written, three rows for each source row, and nothing else |
| Mosaic3.ExpansionHolds | hwcomposer.cpp:900-1056 | nibble (x, y) is bits 12, 20 or 4 on, by (x/3 + y mod 3) mod 3, of source pixel (x/3, y/3), tails included |
| Mosaic3.ExpansionKeeps | hwcomposer.cpp:900-1056 | bytes that hold no nibble of the picture are kept |
| EpdMode.Composer.AdjustSfVsync | hwcomposer.cpp:2303-2349 | what becomes of last_mode and resume_count, and whether the property is written |
| EpdMode.Composer.HandleEinkMode | hwcomposer.cpp:2351-2377 | which mode the next frame gets, and what becomes of the power mode and the timeline |
| EpdMode.Composer.Set | hwcomposer.cpp:2392-2414 | one frame is queued for every framebuffer target with a buffer, unless the mode is SUSPEND |
| EpdMode.Composer.PostEpdLogo | hwcomposer.cpp:2268-2292 | what is posted with which mode, a white screen first if asked for, and that the mode is SUSPEND afterwards |
| EpdMode.Composer.SetPowerMode | hwcomposer.cpp:2458-2540 | what power-off, shutdown and power-on do to the modes, the counter and the trace, and which picture is shown |
| EpdModeTheorems.HistoryDecides | hwcomposer.cpp:2351-2377 | over any run the power mode and the remembered timeline are functions of the calls alone |
| EpdModeTheorems.QueuedByHistory | hwcomposer.cpp:2379-2435 | which frames a call queues, as a function of the calls before it |
| EpdModeTheorems.NothingQueuedWhileOff | hwcomposer.cpp:2353-2358 | between a power-off and the next power-on no frame is queued |
| EpdModeTheorems.OnlyFirstFrameResumes | hwcomposer.cpp:2361-2364 | the first frame after a power-on is queued as RESUME, and no later one |
| EpdModeTheorems.TimelineChangeWhileOff | hwcomposer.cpp:2366-2375 | a change of the timeline while off forces FORCE_FULL on the second frame after power-on; every later frame with that timeline is queued as requested, so with FORCE_FULL only if that was requested |
| EpdModeTheorems.SkipCountOfCall | hwcomposer.cpp:2321-2347 | a call writes the skip count exactly when it changes last_mode: 5 for AUTO, OVERLAY, A2, A2_DITHER, DU, DU4, SUSPEND and RESUME, 2 for other modes |
| EpdModeTheorems.SkipCountMatchesLastMode | hwcomposer.cpp:2321-2347 | over any run the skip count, once written, is 5 if last_mode is one of these and 2 if not |
| EpdModeTheorems.PowerOffPosts | hwcomposer.cpp:2458-2528 | which picture a power-off posts and in which mode, by shutdown, charger, power and what can be read, with the white screen first if asked for |
| EpdModeTheorems.OnlyPowerOffPosts | hwcomposer.cpp:2379-2540 | no other call posts a picture |
| EpdModeTheorems.EventOrder | hwcomposer.cpp:2379-2540 | a call writes the skip count first, if at all, then posts pictures or queues frames, and does nothing else |
| EpdModeTheorems.FullModeCount | hwcomposer.cpp:2529-2536 | only a power-on sets the count up to the next full refresh, to 50 |
| EpdModeTheorems.PowerModes | hwcomposer.cpp:2458-2540 | the mode after a power-off is 18 and after a power-on 2; other power modes do nothing |
| EpdModeTheorems.TargetsCounted | hwcomposer.cpp:2398-2412 | as many frames are queued as there are framebuffer targets with a buffer, over all displays with contents |
| EpdModeTheorems.ModeTaken | hwcomposer.cpp:2305-2319 | a mode becomes last_mode unless SUSPEND holds against all but RESUME, or RESUME, with swallowing left, against all but SUSPEND |
| EpdModeTheorems.SuspendHolds | hwcomposer.cpp:2307-2308 | SUSPEND is left only by RESUME |
| EpdModeTheorems.ResumeSwallowsFive | hwcomposer.cpp:2313-2316 | an accepted RESUME swallows the next five calls other than SUSPEND |
| EpdModeTheorems.ResumeSwallowsNoMore | hwcomposer.cpp:2310-2319 | it swallows no sixth, and never SUSPEND |
| EpdModeTheorems.RunAdjusts | hwcomposer.cpp:2303-2540 | over any run last_mode and resume_count are what the modes that the calls pass make of them |
| EpdModeTheorems.RunStaysSuspended | hwcomposer.cpp:2307-2308 | in a run, SUSPEND stays until a call passes RESUME |
| EpdModeTheorems.RunSwallowsFive | hwcomposer.cpp:2310-2319 | in a run, after an accepted power-on five further modes other than SUSPEND are swallowed, and no sixth |
| VSyncTiming.NextVSyncIsLeast | vsyncworker.cpp:106-125 | the phased vsync is the least time in phase after the clock reading, at most a frame ahead |
| VSyncTiming.SyntheticWaitVBlank | vsyncworker.cpp:129-147 | the target is a frame ahead of the reading if there is no last timestamp, and else the only time in phase within a frame; the split recombines; the first result not to be retried decides |
| VSyncProtocolTheorems.Reachable | worker.cpp:168-232 | every state of every run satisfies the invariants of lock, wake-ups, calls, times and log |
| VSyncProtocolTheorems.NoLostWakeUp | worker.cpp:168-192 | a thread that waits with no wake-up pending is neither enabled nor told to exit, spurious wake-ups included |
| VSyncProtocolTheorems.MutualExclusion | vsyncworker.cpp:149-168 | never are both threads inside their critical sections, and enabled_, exit_ and procs_ change only while a client holds the lock |
| VSyncProtocolTheorems.AtMostOneCallAfterDisable | vsyncworker.cpp:86-104 | after disabling at most one further callback happens until the next control call |
| VSyncProtocolTheorems.DeliveriesInPhase | vsyncworker.cpp:176-192 | delivered times increase; each is the least in phase after its clock reading, at most a frame later, and a whole frame later without a last timestamp; two with no VSyncControl between are whole frames apart |
| VSyncProtocolTheorems.ControlRestarts | vsyncworker.cpp:86-104 | VSyncControl restarts the timing: unless the worker had read the last timestamp, the next time it computes is a whole frame after its clock reading |
| VSyncProtocolTheorems.NoHookNoCall | vsyncworker.cpp:165-191 | in a run that starts without a hook nothing is called until SetProcs has set one |
| VSyncExit.ExitOutcome | vsyncworker.cpp:149-174 | after an exit request that VSyncControl does not interfere with, a worker that has ended holds the lock exactly when, at the request, it was waiting, woken, or about to enter the critical section with vsync off; otherwise it has finished |
| VSyncExit.InterferedOutcome | vsyncworker.cpp:86-104 | if VSyncControl acts then, its last such call decides: switching off blocks, switching on lets the worker finish |
| VSyncExit.SideWhenSet | worker.cpp:222-225 | which of the two ends is settled by where the worker is when exit_ is set |
| VSyncExit.SideKept | worker.cpp:168-219 | no later step leads from one side to the other, unless VSyncControl acts between the two locks |
| VSyncExit.ExitEnds | worker.cpp:200-219 | after an exit request the worker takes at most twelve more steps |
| VSyncExit.ExitNeverStuck | worker.cpp:168-219 | until it has ended it can step as it should, unless a client is in its critical section or it still sleeps |
| VSyncExit.SleepEnds | vsyncworker.cpp:139-141 | and from a sleep it steps once the clock has reached the target |
| VSyncExit.ExitCanBlock | vsyncworker.cpp:157-162 | a run of twelve steps in which an exit request to a waiting worker ends with the lock held |
| VSyncExit.ExitCanFinish | worker.cpp:200-219 | a run in which an exit request ends with the worker finished |
| VSyncExit.ExitWhileWaitingBlocks | vsyncworker.cpp:157-162 | once the worker has left with the lock held, in every continuation nobody gets in |
| Blend.GenerateFragmentShader | glworker.cpp:229-266 | for every number of layers the text's braces balance, and running it yields the colour and alpha of the layers down to the cutoff |
| Blend.ExecJoined | glworker.cpp:248-263 | running two texts one after the other is running their concatenation, skipped branches included |
| BlendTheorems.FrontToBackIsOver | glworker.cpp:252-258 | accumulating front to back is laying the layers over each other back to front |
| BlendTheorems.OverIsTextbook | glworker.cpp:252-258 | one layer over others: its colour times its alpha, and times the texel's alpha unless premultiplied, plus what both alphas leave of the others |
| BlendTheorems.CutoffError | glworker.cpp:244-263 | the cutoff lowers no channel, nor alpha, by more than 0.5/255, and raises none |
| BlendTheorems.DrawnToCutoff | glworker.cpp:249-250 | layers are left out only when the cover is down to the cutoff |
| BlendTheorems.DrawnAboveCutoff | glworker.cpp:249-250 | and drawn only while it is above |
| BlendTheorems.OpaqueHidesTheRest | glworker.cpp:249-263 | below a layer of opacity one no layer matters, with or without the cutoff |
| BlendTheorems.StaysPremultiplied | glworker.cpp:252-263 | from premultiplied layers the output is premultiplied: no channel exceeds alpha |
| BlendTheorems.TexelIsPremultiplied | glworker.cpp:255-257 | texels of premultiplied and of coverage layers contribute at most their opacity |
| BlendTheorems.ThroughVanishes | glworker.cpp:258-258 | nothing behind the layers is seen exactly when one of them has opacity one |
| BlendTheorems.ReturnedAlpha | glworker.cpp:258-263 | the returned alpha is one exactly when a layer that is drawn has opacity one |
| BlendTheorems.UnblendedAlpha | glworker.cpp:423-427 | a layer that is not blended can return alpha one half |
| BlendTheorems.UnblendedShowsTexel | glworker.cpp:423-427 | a layer that is not blended shows its texel unchanged |
| TextureMap.CropBounds | glworker.cpp:410-421 | the four bounds are what the layer shows at the two corners of the region, for every transform |
| TextureMap.MakeSource | glworker.cpp:367-430 | bounds, matrix, alpha and premultiplication of one texture |
| TextureMap.RenderingCommand.Construct | glworker.cpp:330-432 | the command has the region's frame and the textures of its layers, in order, down to the first that is not blended |
| TextureTheorems.Seamless | glworker.cpp:217-224 | for every transform the texture coordinate at a fragment is what the layer shows at that point of the screen, whatever the region |
| TextureTheorems.RegionsAgree | glworker.cpp:371-421 | so two regions agree wherever they meet |
| TextureTheorems.TriangleCovers | glworker.cpp:498-502 | every point of the region is a fragment of its one triangle |
| TextureTheorems.FrameShowsCrop | glworker.cpp:371-421 | for every transform a point is in the display frame exactly when the buffer pixel it shows is in the crop |
| TextureTheorems.PointShowsPixel | glworker.cpp:371-421 | in the buffer's pixels, a point of the frame shows the point of the crop that lies as it does, turned and flipped |
| TextureTheorems.FlagsAreFlipsThenTurns | glworker.cpp:378-402 | flags act as a flip followed by a turn exactly when a half or three-quarter turn has no flip and a quarter turn at most one |
| TextureTheorems.FlagBits | glworker.cpp:378-402 | and what every combination does: a half or three-quarter turn with a flip is the flip alone, a quarter turn with a horizontal flip ignores the vertical one |
| RegionColour.LastVisible | glworker.cpp:423-427 | every layer that is drawn but the last is blended; if some are not drawn, the last that is drawn is not blended |
| RegionColour.SamplesAreStack | glworker.cpp:330-432 | what the shader blends amounts to all the layers of the region, those below an unblended one included |
| RegionColour.StackIsLaid | glworker.cpp:252-263 | which is the textbook's operator applied layer by layer |
| RegionColour.PixelIsStack | glworker.cpp:229-432 | the colour drawn at a point is, within 0.5/255 in each channel, all the layers of the region laid over one another, each at the texel that belongs to that point |

## Left out

- Float coordinates: `separate_frects_64` (`separate_rects.cpp:327-330`) is modelled for `int` coordinates only, and `glworker.cpp` in exact arithmetic; rounding, infinities and NaN are not part of this model. A layer's display frame has to be neither zero wide nor zero high, since the code divides by its size.
- Integer overflow of offsets and sizes (`i * 3 * vir_width / 2` and the like): buffer positions are natural numbers. Stores to 16-bit residual lines, 8-bit pixels and 64-bit id sets do wrap as in the source.
- In the dither and gamma modules machine words are numbers: masks and shifts are written as remainders and quotients, and the `|` of disjoint fields as a sum. In the packers, the mosaics and the id sets they are bit-vectors.
- Byte order and `char`: little-endian and unsigned, as on the ARM targets the code is built for.
- Ordered sets and maps of the sweep are sorted sequences with the source's orders; searching them takes no position on cost. Copies of an id set are values.
- The bodies of the unrolled loops are split over several methods (`LowWord` and `HighWord`, the phase turns of the mosaic, `PutThreePairs` and so on); the statements are in the source's order. Source and destination buffers are distinct, so the model does not capture what happens when they overlap.
- DitherRect: the rectangle and stride arithmetic of `gray256_to_gray2_dither` (hwcomposer.cpp:868-884) before the row loop is left out; the loop is modelled for even offsets and widths, which is what that arithmetic leaves, and no claim is made about which part of a region it covers. Nothing is said of what happens once a store has left the line, which is undefined in the source.
- ArmRow: needs a row that is not empty and a multiple of four pixels wide, because the routine tests for the end only after an iteration. The residual lines hold halfwords, 0 to 65535, which is all that a line of halfwords can hold.
- NeonPack16: needs an image that is not empty and a row length that is a multiple of 16, for the same reason; NeonPack32 likewise with 32.
- Gray256ToGray16: nothing is said of what happens after the division by zero at level 80, which is undefined in the source.
- InitGammaTable: the same.
- Rgb888ToColorEink: the expanded rows must not overlap, as on a panel three times as wide and high as the picture (`Mosaic3.Fits`).
- SyntheticWaitVBlank: the refresh rate is a parameter (the frame length in nanoseconds), the clock reading and the results of the sleeps are inputs.
- DeliveriesInPhase: assumes a clock that does not run backwards and a sleep that ends no earlier than its target.
- The worker's accesses to `last_timestamp_` outside the lock are atomic steps. Lock and condition variable calls are taken to succeed; `WaitForSignalOrExitLocked` is modelled without a time limit, the only way `VSyncWorker` calls it. Starting and joining threads and priorities are left out.
- PostEpdLogo: what a picture looks like on the panel (Skia, the colour panel's library, the conversion by RGA) is left out; posting a picture, queueing a frame and writing the property are events of a trace.
- SetPowerMode: property values, and which of the user's pictures can be read, are inputs.
- Region lists: `DrmCompositionRegion` and `DrmHwcLayer` come from headers whose use of them is modelled by `Layer` and a list of indices; `drmdisplaycomposition.h` is not part of this model. `RK_VIDEO_SKIP_LINE` and rotation by RGA are compiled in by macros that the repository nowhere defines, and are left out.
- The shader's declarations, the text of its expressions, texture sampling, EGL and GL objects, caches of programs and framebuffers; the model runs the structure of the text, with its braces.
- The gray conversion and sixteen-pixel rgb kernels of `rgb888_to_gray_256_neon.s` other than the dither and the two packers; `gray256_to_gray2`, a threshold on each pixel.
- Disabled code: the first mosaic algorithm (`hwcomposer.cpp:1058-1516`), the byte-by-byte variant of `Luma8bit_to_4bit`; also `Rgb565_to_color_eink2`, noted there as unused, whose second row of phases does not follow its own comments.
- `einkcompositorworker.cpp`, ioctls on the panel device, RGA blits, Skia pictures, gralloc, fences, display attributes, logging and dumping: calls into code that is not part of this model.
- The stream operators and `operator|` of `IdSet`, `Rect::width` and `height`: they would only add easy members.
