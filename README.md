# toasc: a verified model of the glyph-matching core

`toasc` turns a grey-scale picture into text. It cuts an 8×16 bitmap font
sheet into 256 glyphs, selects which character codes may be printed, blurs
and optionally rescales the picture, and then prints, for every 8×16 cell of
the picture, the eligible glyph that resembles the cell most. Resemblance is
the sum of squared pixel differences, the integer square root of a weighted
brightness difference, or their product.

This project models that core in Dafny and proves properties of the model.
The modules follow the program's structure:

- `Common`: bytes, `INT_MAX`, C conversions and result types.
- `Text`: splitting on `,` as `strsep` does, and `atoi`.
- `Raster`: rectangles addressed through a row stride, and `average`.
- `Glyphs`: the glyph table as a `Font` class with `font_set_allowed`,
  `font_set_allowed_range` and `font_normalize`.
- `FontLoader`: `font_load`'s extraction of the 256 cells from the sheet.
- `Selection`: `parse_allowed_chars`, and the default character list.
- `Matcher`: `distance_diff`, `distance_avg_diff` and `find_lowest_distance`.
- `Padding`: the padding phase of `gb_blur`.
- `Pipeline`: the brightness rescale and the cell loops of `main`.

Where the program's usual description and its code differ, the model follows
the code:

- A range must have its start strictly below its end, so `5-5` is rejected.
- A token that is not a number is not rejected: `atoi` reads it as 0, or as
  its leading digits.
- A bad token ends the run after the earlier tokens have already been
  applied.
- With no eligible glyph every cell gets code 0.
- The blur's padding does not replicate the bottom and right edges (see
  Findings).

## Model

| member | source | states |
|---|---|---|
| Text.Split | toasc.c:301 | the tokens `strsep` yields on `,`: at least one, none containing a `,`; inverse of `Join` by `JoinSplit` and `SplitJoin` |
| Text.FirstIndex | toasc.c:307 | `index(tok, '-')`: the position of the first `-`, with no `-` before it |
| Text.Atoi | toasc.c:309-321 | `atoi` (white space, sign, digits); 0 when the string holds no digit; read-back stated by `AtoiOfNat` |
| Text.JoinSplit | toasc.c:301 | the tokens `strsep` yields on `,`, joined back with `,`, give the original string |
| Text.SplitJoin | toasc.c:301 | splitting the join of comma-free tokens gives those tokens back |
| Text.AtoiOfNat | toasc.c:309-312 | `atoi` reads back the decimal text of every natural number |
| Text.AtoiOfNatThen | toasc.c:312 | `atoi` stops at the first non-digit after a number, so the end of a token such as `1-2-3` reads as 2 |
| Selection.CheckRange | toasc.c:309-316 | a range succeeds exactly when `0 <= start < end <= 255`, giving that range; otherwise it fails on a start outside `0..255`, else on an end outside `0..255`, else with an invalid range when the start is not below the end |
| Selection.ParseBody | toasc.c:307-324 | a token without its mark: a range at the first `-`, a single code otherwise; success gives a valid command with the given mark |
| Selection.CheckCode | toasc.c:321-323 | a single code succeeds exactly when it lies in `0..255`, otherwise it fails with that code |
| Selection.ParseToken | toasc.c:302-325 | an accepted token gives a valid command, and the command excludes exactly when the token starts with `-` |
| Selection.ParseRangeToken | toasc.c:303-318 | `[-]a-b` gives the range `a..b` with its mark, or the first of the three errors that applies |
| Selection.ParseSingleToken | toasc.c:303-324 | `[-]a` gives the single code `a` with its mark, or an invalid-character error when `a > 255` |
| Selection.ParseFormat | toasc.c:302-325 | every valid command has a text form that parses back to it |
| Selection.Apply | toasc.c:318-324 | reference definition of one command on the table (`SetRange` or `SetOne`), which keeps the table's 256 entries; stated by `ApplyAt` |
| Selection.ApplyAll | toasc.c:301-326 | reference definition of the commands applied in order; stated by `ApplyAllVerdict` |
| Selection.ApplyAt | toasc.c:318-324 | one command changes only the eligibility of the codes it covers |
| Selection.Verdict | toasc.c:301-326 | independent reference definition: a code's flag is the mark of the last command covering it, or its initial value; the partner of `ApplyAll` in `ApplyAllVerdict` |
| Selection.ApplyAllVerdict | toasc.c:301-326 | after a list of commands a code's eligibility is the verdict of the last command covering it, or unchanged |
| Selection.ParsePrefix | toasc.c:301-326 | each command is the parse of the token at its position, and all are valid; a failure carries the error of the token right after them; all tokens are parsed when it passes |
| Selection.RunTokens | toasc.c:301-326 | reference definition of the token loop, applying each command as soon as it is parsed; keeps 256 entries; stated by `RunTokensParsed` |
| Selection.RunSelection | toasc.c:297-329 | reference definition of `parse_allowed_chars`: the token loop over the string split on `,`; specifies `ParseAllowedChars` and is stated by `SelectionOutcome` |
| Selection.RunTokensParsed | toasc.c:301-326 | running the tokens in order equals applying the commands parsed before the first bad token, with that token's error |
| Selection.SelectionOutcome | toasc.c:297-329 | the selection's outcome and each code's new eligibility follow from the parsed commands |
| Selection.ApplyCommand | toasc.c:318-324 | one parsed command updates the font's table in place as the pure `Apply` says |
| Selection.ParseAllowedChars | toasc.c:297-329 | the in-place loop over the tokens leaves the table and outcome that `RunSelection` specifies, keeping the font valid |
| Selection.ParsePrefixFormat | toasc.c:301-326 | the text forms of valid commands parse back to exactly those commands, without error |
| Selection.SelectionOfFormatted | toasc.c:297-329 | a selection string made of formatted commands succeeds, and each code gets the verdict of its last covering command |
| Selection.DefaultSplit | toasc.c:370 | the default selection string splits into its four tokens |
| Selection.DefaultVerdict | toasc.c:370 | the default commands allow exactly the codes 32..254 except 130..140, 145..156 and 159 |
| Selection.DefaultSelection | toasc.c:370 | on a table with nothing allowed, the default string succeeds and allows exactly those codes |
| Glyphs.SetOne | toasc.c:234-236 | only the flag of code `nr` changes, to the given value; everything else is kept |
| Glyphs.SetRange | toasc.c:238-241 | exactly the flags of codes `start..end` (inclusive) change; everything else is kept |
| Glyphs.SetFlagsKeepShape | toasc.c:234-241 | changing eligibility flags keeps every glyph's code, size and brightness |
| Glyphs.Font.SetAllowed | toasc.c:234-236 | the in-place update of one flag leaves the table `SetOne` gives |
| Glyphs.Font.SetAllowedRange | toasc.c:238-241 | the loop over `start..end` leaves the table `SetRange` gives |
| Glyphs.Font.Normalize | toasc.c:215-226 | `min` and `max` bound the brightness of every eligible glyph and are attained by eligible glyphs; with none eligible they are 255 and 0 |
| FontLoader.SheetIndex | toasc.c:197 | the sheet index of pixel `(x, y)` of cell `c` lies inside the 16×16-cell sheet |
| FontLoader.SheetIndexCell | toasc.c:187-197 | that index lies in sheet row `(c / 16) * h + y` and sheet column `(c % 16) * w + x` |
| FontLoader.Binarize | toasc.c:177-198 | a lit sheet pixel becomes 255 and a dark one 0, the other way round when inverted |
| FontLoader.RawGlyph | toasc.c:193-202 | reference definition of the binarised cell of code `c`, `w * h` bytes; stated pixel by pixel by `RawGlyphPixel` |
| FontLoader.RawGlyphPixel | toasc.c:193-198 | pixel `(x, y)` of a glyph is the binarised sheet pixel of its cell |
| FontLoader.LoadedGlyph | toasc.c:186-208 | reference definition of the glyph stored for code `c`: code `c`, not eligible, the raw cell's average, the blurred cell; used by `FontLoad`'s contract |
| FontLoader.ExtractGlyph | toasc.c:193-202 | the row-by-row loop produces exactly the binarised cell |
| FontLoader.FontLoad | toasc.c:167-212 | fails exactly when the sheet is not 16×16 cells of one channel; otherwise a fresh valid font whose glyph `c` has code `c`, is not eligible, has the brightness of its binarised cell and holds that cell blurred |
| Raster.RowSum | toasc.c:59-60 | the sum of `n` consecutive pixels is at most `255 * n` |
| Raster.RectSumBound | toasc.c:57-60 | the pixel sum of a `w` by `h` rectangle is at most `255 * w * h` |
| Raster.Average | toasc.c:56-62 | the average lies in `0..255` |
| Raster.AverageFloor | toasc.c:56-62 | the average is the pixel sum divided by the pixel count, rounded down |
| Raster.AverageUniform | toasc.c:56-62 | a rectangle holding one value everywhere averages to that value |
| Raster.ComputeAverage | toasc.c:56-62 | the nested loops compute `Average` |
| Matcher.SqDiff | toasc.c:247-248 | a squared pixel difference is at most `255²` and zero exactly when the pixels are equal |
| Matcher.RowDistance | toasc.c:246-248 | the squared differences of `n` pixel pairs sum to at most `255² * n` |
| Matcher.ShapeDistance | toasc.c:243-255 | reference definition of the full shape distance, row by row; stated by `ShapeDistanceZero`, `ShapeDistanceBound` and `ShapeDistanceMono` |
| Matcher.RowDistanceZero | toasc.c:246-248 | a row's distance is zero exactly when the two rows are equal |
| Matcher.ShapeDistanceMono | toasc.c:245-251 | the distance over the first `m` rows never exceeds that over the first `n >= m` rows |
| Matcher.ShapeDistanceBound | toasc.c:243-255 | the distance of a `w` by `h` cell is at most `255² * w * h` |
| Matcher.ShapeDistanceZero | toasc.c:243-255 | the distance is zero exactly when the cell equals the glyph row by row |
| Matcher.RowDiff | toasc.c:246-251 | one row adds its full distance, or stops early with a total above the limit and at most the full total |
| Matcher.DistanceDiff | toasc.c:243-255 | returns the full distance when it is within the limit, and otherwise a value above the limit and at most the full distance |
| Matcher.AvgDistance | toasc.c:258 | the weighted brightness difference is zero exactly when the area is zero or the two brightnesses agree |
| Matcher.AvgDistanceBound | toasc.c:258 | that difference is at most `255 * w * h` |
| Matcher.DistanceAvgDiff | toasc.c:257-259 | returns `w * h * |glyph average - cell average|` |
| Matcher.Isqrt | toasc.c:272 | `r² <= n < (r + 1)²` |
| Matcher.IsqrtUnique | toasc.c:272 | that bracket determines the root |
| Matcher.IsqrtFacts | toasc.c:272 | the root is zero only for zero, and at most 180 for the brightness factor of an 8×16 cell |
| Matcher.Score | toasc.c:266-274 | reference definition of `fdist * adist`: the shape distance when flag bit 1 is set, else 1, times the root of the brightness distance when bit 2 is set, else 1; used by `IsBestMatch` |
| Matcher.ScoreBound | toasc.c:262-274 | for cells of at most 128 pixels a score stays below `INT_MAX`, the initial minimum |
| Matcher.EarlyExitHarmless | toasc.c:269-276 | an early-stopped shape distance beats the running minimum exactly when the full one does, and then equals it |
| Matcher.BestMatchUnique | toasc.c:261-284 | at most one code is the best match of a cell |
| Matcher.FindLowestDistance | toasc.c:261-284 | returns the eligible code with the least score, the lowest code on ties, and 0 when none is eligible |
| Padding.Padded | toasc.c:136-153 | reference definition of the buffer the five passes leave, for a given first bottom row and first right column; stated region by region by `PaddingRegions` |
| Padding.PaddingRegions | toasc.c:136-153 | region by region, which image pixel each padded pixel holds as written; the bottom and right borders stay zero |
| Padding.CopyImage | toasc.c:138-139 | image row `y` lands in padded row `y + r` from column `r` |
| Padding.ExtendTop | toasc.c:141-142 | padded rows `0..r-1` get image row 0 |
| Padding.ExtendBottom | toasc.c:144-145 | `r` padded rows from the given row get image row `h - 1` |
| Padding.ExtendLeft | toasc.c:147-149 | padded columns `0..r-1` repeat padded column `r` |
| Padding.ExtendRight | toasc.c:151-153 | `r` padded columns from the given column repeat the column before it |
| Padding.Pad | toasc.c:135-153 | a fresh zero buffer followed by the five passes gives the padded image |
| Padding.PadForBlur | toasc.c:134-153 | the padding as written: the bottom pass from row `h`, the right pass from column `w` |
| Padding.CornerNotReplicated | toasc.c:144-153 | as written, the padded bottom-right corner is 0 even when the image's corner pixel is not |
| Padding.CorrectedIsReplicated | toasc.c:136-153 | with the bottom pass from row `h + r` and the right pass from column `w + r`, every padded pixel is the nearest image pixel |
| Padding.PadReplicated | toasc.c:136-153 | the corrected padding replicates the image's edges everywhere |
| Pipeline.RescalePixel | toasc.c:437 | a rescaled pixel lies between `lo` and `hi`, whichever is larger |
| Pipeline.RescaleEnds | toasc.c:437 | black maps to `lo` and white to `hi` |
| Pipeline.RescaleMono | toasc.c:437 | the rescale keeps brightness order when `lo <= hi` and reverses it otherwise |
| Pipeline.RescaleFullRange | toasc.c:437 | the range `0..255` leaves every pixel unchanged |
| Pipeline.Rescale | toasc.c:430-440 | rewrites every pixel in place with `RescalePixel`, and reports the least and greatest old pixel (255 and 0 for an empty image) |
| Pipeline.CellOffset | toasc.c:444 | reference definition of where cell `(y, x)` starts, `y * height * pw + x * width`; its property is stated by `CellInside` |
| Pipeline.CellInside | toasc.c:442-444 | every cell of the `ph / height` by `w` grid lies inside the `pw` by `ph` image |
| Pipeline.MatchCells | toasc.c:442-449 | `ph / height` rows of `w` codes, each the best match of its cell |
| Pipeline.Render | toasc.c:430-449 | the image is rescaled only when normalisation is on, and the grid holds the best match of every cell of the resulting image |

## Left out

- The Gaussian kernel (`gb_kernel`) and the convolution phase of `gb_blur` use floating point. The glyph blur is a length-preserving function parameter of `FontLoad`, and the picture reaches `Pipeline` already blurred.
- `image_load` is left out: PNG decoding and resizing happen in a library that is not part of this model. So is `font_load`'s decoding of the sheet, which arrives as bytes with its width, height and channel count.
- Option parsing, `help`, `verbose`, the `printf` output and `font_free` are left out. The output is the grid of printed codes.
- Allocation is left out.
- The unused `inverted` field and the disabled variance and covariance code are left out.
- `error` exits the program; here it is a `Fail` outcome, returned after the earlier tokens have been applied.
- `assert` in `font_load` aborts the program; here it is a `FormatMismatch` failure.
- Text.Atoi: works on unbounded integers, so a number too large for a C `int` is read without overflow.
- Matcher.FindLowestDistance: requires cells of at most 128 pixels, which is the 8×16 font `main` loads. Scores then stay below `INT_MAX`; integer overflow for larger fonts is not modelled.
- Matcher.Isqrt: stands for `(int)sqrt(n + 0.1)`. Up to 128·255 no integer square lies strictly between `n` and `n + 0.1`, so the two agree on every value the matcher produces.
- Matcher.DistanceDiff: the inner row loop is the helper method `RowDiff`, and its early return is reported as a flag.
- Pipeline.RescalePixel: computes in integers instead of doubles with truncation. The true value is never negative, and unless it is an integer it is at least 1/255 away from one, so the results agree.
- Pipeline.Render: requires the font's `min` and `max` in `0..255`, which `Glyphs.Font.Normalize` guarantees.
- Padding.PadForBlur: holds the padded buffer as a two-dimensional array rather than one flat allocation.
- The convolution phase of `gb_blur` is not modelled, so neither is the row length `pw + 2r` with which it reads the padded buffer (the padding writes rows of `w + 2r`).
- Glyphs.Font: holds the glyphs as values in an array instead of pointers to records, so a flag update replaces a glyph value.

## Findings

| source | as written | input that shows it | evidently intended | confidence | as-written member | corrected member |
|---|---|---|---|---|---|---|
| toasc.c:144-153 | the "bottom row" pass writes padded rows `h..h+r-1` and the "right column" pass columns `w..w+r-1`. These overwrite the last `r` image rows and columns, and padded rows `h+r..h+2r-1` and columns `w+r..w+2r-1` keep the zeros of `calloc` | a 1×1 image of value 255 with radius 3: padded pixel (6, 6) is 0, where edge replication gives 255 | fill rows `h+r..h+2r-1` with image row `h - 1`, and columns `w+r..w+2r-1` with padded column `w+r-1` | high; not executed | Padding.CornerNotReplicated | Padding.PadReplicated |
