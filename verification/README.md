# Verified model of the NT4 feed reader's portable core

This project models the operating-system-independent core of a photo feed reader for Windows NT 4 and proves what that
core is relied on for. Each module mirrors a source file: the C loops, buffers and structs are Dafny methods, arrays and
classes, each proved against a specification function, and the laws are lemmas about those functions.

| files | what they model |
|---|---|
| `CTypes.dfy`, `Numerals.dfy`, `Heap.dfy` | bytes, 32-bit words, C division; written numbers; malloc, realloc and free under any schedule of refusals |
| `Raster.dfy`, `Downscale.dfy` | the pixel engine on strided surfaces: clipping, blending, blits, area downscale |
| `Qoi.dfy` | the QOI encoder and decoder |
| `QoiSpec.dfy`, `QoiConformance.dfy` | the QOI specification 1.0 on bytes and pixels, and that both directions follow it |
| `Font.dfy`, `Caption.dfy`, `Draw.dfy` | text measuring, caption wrapping, text drawing |
| `FontLaws.dfy`, `DrawLaws.dfy` | texts by UTF-8 and by widths in pixels; drawn texts cell by cell, by the font's bits |
| `Feed.dfy`, `FeedLaws.dfy` | the caption block, laid out, measured and painted, and its lines' room |
| `Paint.dfy`, `PaintLaws.dfy` | a post's card as the list of what is drawn; where it stays, and when its texts run out of it |
| `PaintCells.dfy`, `Chrome.dfy` | the card and the window's bars cell by cell, by coordinates and colors |
| `Screen.dfy`, `Window.dfy` | the scrolling feed, painted and hit-tested; the window's state machine |
| `Json.dfy`, `JsonText.dfy`, `JsonStrings.dfy` | the JSON reader as a function, the grammar it reads, the two passes over a string |
| `JsonMeaning.dfy` | what a JSON text means, apart from its decoding, and when that is kept |
| `JsonLaws.dfy`, `JsonSound.dfy`, `JsonRfc.dfy` | every rendering is accepted; all that is accepted is a rendering; where that goes beyond RFC 8259 |
| `JsonParser.dfy` | the JSON parser on a heap |
| `HttpText.dfy`, `Http.dfy` | HTTP/1.1 messages as byte strings; the in-place parser and the request builder |
| `HttpLaws.dfy`, `HttpWire.dfy` | what is written reads back; which replies are taken at all, and requests byte by byte |
| `Calendar.dfy` | days to civil dates |
| `Printf.dfy`, `PrintfLaws.dfy`, `PrintfFormat.dfy` | the bounded printer, and every format by its grammar |

`dafny verify dfyconfig.toml` checks the whole project.

## How to read it

The specification of a loop is a recursive function or a comprehension on sequences. A method's `ensures` equates the
new state with that function of the old one; the lemmas then say what the function means, against an independent
definition: the decoder and the QOI specification's byte layout for the encoder, all other splits for greedy wrapping,
the grammar for the JSON parser, a serializer for the HTTP parser, a leap-year calendar for the date arithmetic, a
grammar of formats and C99 for the printer, the coordinates and colors of every pixel for the drawing, and for the
window the card a click toggles against the pixels on its row. Those definitions spell out constants, letters and
coordinates of their own and call none of the functions they pin.

The main results are `Qoi.RoundTrip`, `QoiConformance.DecodesEveryFile`, `QoiConformance.EncodesFile`,
`Caption.Optimal`, `Caption.Lossless`, `DrawLaws.TextCells`, `Draw.DrawsWhatItMeasures`, `FeedLaws.ExpandedBlock`,
`FeedLaws.CaptionLineFits`, `FeedLaws.LabelFits`, `PaintCells.CardCells`, `PaintLaws.CardSpills`,
`Window.EveryRunIsGood`, `Window.EveryPixel`, `Window.OffsetKept`, `Window.ClickHitsWhatIsSeen`,
`Window.SeenIsTheCard`, `JsonSound.Language`, `JsonRfc.AcceptedIsRfc`, `JsonMeaning.DecodedIsMeaning`,
`JsonStrings.PassesAgree`, `JsonParser.ParseJson`, `HttpLaws.RoundTrip`, `HttpLaws.DechunkIsMonotone`,
`HttpWire.TakesReplies`, `Http.ParseResponse`, `Calendar.GmtimeIsExact`, `PrintfFormat.FormatPrints`,
`Printf.Vsnprintf`, `Raster.BlitPointwise` and `Downscale.BoxesPartition`.

## Where the code differs from what one would expect

The model follows the code. Each of these is a lemma with the exact condition, or with a witness.

- A click can toggle a card that is not seen. That happens exactly on a card's row when there is no backbuffer (a
  refused one has already destroyed the old one, and painting then returns at once), when the content surface cannot be
  had (no memory, or more than 2^28 pixels), or when the window is at most 12 wide (`Window.ClickHitsWhatIsSeen`; one run
  for each in `Window.PartingWays`).
- The comment in `ui_feed_click_real` says a click in the app bar hits nothing. Some app bar row toggles a post exactly
  when the feed is scrolled past the first gap of 6 rows (`Window.AppBarClicks`); nav bar rows toggle posts too
  (`Window.NavBarClicks`). One key down gets there (`Window.BarsToggle`).
- The app bar's rule is drawn over the first viewport row, yet a click there toggles the card under it
  (`Window.ClickHitsWhatIsUnder` covers that row, `Window.ClickHitsWhatIsSeen` leaves it out).
- A card's texts can run below it: a username, a likes text or a location with newlines, and a line of comments (which
  only the mock feed has) with a Hangul glyph. `PaintLaws.TextsFit` is the condition on the texts. It holds exactly when
  every string of the card ends above its bottom (`PaintLaws.TextsEndInCard`), and it fails exactly when draw_post leaves
  ink outside the card on a blank surface with room, in a solid font (`PaintLaws.CardSpills`). A username with three
  newlines and no caption fails it (`PaintLaws.TallUsername`). Captions always fit.
- In a window no higher than its two bars the scrollbar's range ends one row short of `max_scroll`
  (`Window.ThumbReaches`).
- The truncation label runs out of its column below 62 pixels plus the width of the line's first glyph, and also when the
  512-byte buffer cuts the text before it inside a character, whose bytes left then read as blanks and push it out: in a
  column of 829 pixels, say (`FeedLaws.LabelFits` says exactly when; `FeedLaws.LabelPushedOut`). A caption line can be
  longer than that buffer exactly in columns wider than 766 pixels or of negative width (`FeedLaws.BufferSuffices`).
- The JSON decoder's cursor can pass the closing quote found by its scan, by one, exactly when the quote cuts a `\u`
  escape short; the parse then fails (`JsonStrings.PassesAgree`).
- The JSON decoder takes any escape after a high surrogate's for the low half, so the escapes uD800 and u0041 become one
  character, U+2441 (`JsonLaws.MergedEscapes`). A string survives decoding exactly when every escape right after a high
  surrogate's names a low one (`JsonMeaning.DecodedIsMeaning`); a high surrogate with no escape after it, and a low one
  by itself, are kept as their own code points.
- A JSON key ends at its first NUL, so a value survives parsing exactly when its strings do and its keys are free of NULs
  (`JsonMeaning.KeptIsMeaning`, `JsonLaws.RoundTrip`).
- The JSON parser takes more than RFC 8259 allows: numbers such as `01`, `1.`, `-.5` and `1e`, and strings with bare
  control bytes. `JsonRfc.AcceptedIsRfc` says exactly which accepted texts are JSON. Bytes from 0x80 on are kept as they
  are, UTF-8 or not.
- Digits, signs, dots and exponent marks right after a number continue it (`JsonLaws.NumberRunsOn`), which is the one case
  `JsonLaws.TrailingTextRejected` leaves out.
- A response whose Transfer-Encoding ends in chunked but has another coding before it, or a blank, is not taken for
  chunked (`HttpLaws.ChunkedOnlyBare`, `HttpLaws.MissedChunked`).
- Beyond 16843009 pixels in a box the downscaler's sums wrap (`Downscale.WhiteBoxWraps`).
- The printer narrows its buffer size to an int: from 2^31 on the closing NUL would go in front of the buffer
  (`Printf.SizeFitsInt`), so `Printf.Vsnprintf` is stated below that.
- `tm_year` is right exactly for the times that `Calendar.YearFieldIsExact` gives: all 32-bit times, not all 64-bit ones.
- The printer's `%d` pads after the sign and its `%s` and `%c` ignore their width (`PrintfLaws.SignedIsStandard`,
  `PrintfLaws.TextIsStandard`, `PrintfLaws.CharIsStandard`).

## Model

| member | source | states |
|---|---|---|
| `Qoi.RoundTrip` | img/qoi.c:16-148 | decoding the encoded file gives back width, height and every pixel, for all sides up to 20000 and up to 2^28 pixels |
| `Qoi.Sync` | img/qoi.c:33-65 | from any encoder and decoder state in step, what the encoder still writes decodes to its pending run followed by the rest of the image |
| `Qoi.RunKeepsInStep` | img/qoi.c:58-62 | the table store the decoder makes after a RUN, which the encoder does not make, leaves the two in step (slot 53 is the only one that can differ) |
| `Qoi.StoreKeepsInStep` | img/qoi.c:112-116 | storing the same pixel on both sides keeps them in step |
| `Qoi.MatchAgrees` | img/qoi.c:113-114 | whenever the encoder finds a pixel in its table the decoder has it in the same slot, so the divergent slot is never read |
| `Qoi.SyncRun` | img/qoi.c:58-65 | a RUN chunk yields exactly its pixels and leaves the two sides in step |
| `Qoi.SyncPixel` | img/qoi.c:107-138 | an INDEX, DIFF, LUMA, RGB or RGBA chunk yields exactly its pixel and leaves the two sides in step |
| `Qoi.SyncStep` | img/qoi.c:101-138 | one pixel of the encoder: what it writes makes the decoder produce the pixels no longer pending |
| `Qoi.ReadBack` | img/qoi.c:37-60 | a chunk's bytes are read back as that chunk whatever follows them, so the eight tag ranges never collide |
| `Qoi.LiteralPixel` | img/qoi.c:117-135 | a DIFF, LUMA, RGB or RGBA chunk rebuilds its pixel from the same previous pixel under byte wrap-around |
| `Qoi.DecodeRun` | img/qoi.c:34-36 | a pending run repeats the previous pixel and then decoding goes on |
| `Qoi.SizeBound` | img/qoi.c:79 | five bytes a pixel always suffice, counting a pending run as one byte owed |
| `Qoi.FileSize` | img/qoi.c:79-80 | the file is never longer than 5*w*h + 22 bytes, the size the encoder allocates |
| `Qoi.NeverRepeatsIndex` | img/qoi.c:107-114 | no two adjacent INDEX chunks name the same slot |
| `Qoi.EncodePixel` | img/qoi.c:101-138 | every chunk written has its operands in range (runs of 1 to 62), no run stays pending after the last pixel |
| `Qoi.PutPixel` | img/qoi.c:101-138 | the in-place step on buffer, table and run counter writes exactly the specification's chunks and stays inside the buffer |
| `Qoi.PutPixels` | img/qoi.c:95-140 | the two loops over a strided surface write exactly the chunks of its logical image |
| `Qoi.Put32` | img/qoi.c:69-74 | four bytes, most significant first, appended |
| `Qoi.Encode` | img/qoi.c:76-148 | NULL exactly for no surface, an empty one or no memory; otherwise the file of the image, every write in bounds |
| `Qoi.TakeChunk` | img/qoi.c:36-62 | one turn of the decoder reads a chunk, or fails exactly when it is truncated, and stores its pixel in the table |
| `Qoi.NextPixel` | img/qoi.c:34-64 | the decoder's next pixel, or the rest of the picture left clear after a truncated chunk |
| `Qoi.TakePixels` | img/qoi.c:26-65 | the decoding loop fills the buffer with exactly the pixels the chunks stand for |
| `Qoi.Decode` | img/qoi.c:16-67 | succeeds exactly on a header with sane sides and enough bytes, memory permitting, and then gives the decoded picture |
| `QoiConformance.DecodesEveryFile` | img/qoi.c:16-67 | by the QOI specification 1.0 on the file's own bytes: every file of the format with sides up to 20000 and up to 2^28 pixels, from any encoder, with any channels and color space byte, decodes to the image its chunks draw; an index chunk k is the pixel last seen with (3r + 5g + 7b + 11a) mod 64 == k, or the zero pixel |
| `QoiConformance.DecodesStream` | img/qoi.c:34-64 | the same for the chunks from any point on, each read by its bit fields |
| `QoiConformance.DecodesCutData` | img/qoi.c:33-65 | data that ends too early: the pixels so far are all there; after a whole chunk the last is repeated to the end, after a cut one the rest stays clear |
| `QoiConformance.TakesSaneHeaders` | img/qoi.c:16-31 | memory permitting, data is decoded exactly when it is 22 bytes or more, begins with qoif and names sides of 1 to 20000 and at most 2^28 pixels |
| `QoiConformance.EncodesFile` | img/qoi.c:76-148 | every encoded file is a file of the format for its image, with four channels, sRGB and the end mark, and each chunk is the one the rules pick: run, index, diff, luma, full pixel, in that order |
| `QoiConformance.EncodesStream` | img/qoi.c:95-140 | the same for what the encoder writes from any pixel on, a pending run included |
| `QoiConformance.PixelPicked` | img/qoi.c:107-138 | what is written of a pixel that is no run is the chunk those rules pick |
| `QoiConformance.SameBytes` | img/qoi.c:36-60 | the chunks' tags and bit fields are the specification's |
| `Raster.Surface.Alloc` | core/raster.c:8-21 | succeeds exactly for positive sides within the pixel limit when memory is found, with a clear buffer; otherwise changes nothing |
| `Raster.ClipRect` | core/raster.c:41-51 | the clipped rectangle holds exactly the cells of the rectangle that lie on the surface |
| `Raster.BlendNearest` | core/raster.c:54-67 | each blended channel is the nearest integer to the exact source-over mix; an opaque destination stays opaque |
| `Raster.AlphaFits` | core/raster.c:63-65 | the alpha sum never exceeds 255, so its clamp never acts |
| `Raster.BlendRect` | core/raster.c:86-92 | exactly the cells of the rectangle on the surface are blended; all other cells and the padding stay |
| `Raster.FillRect` | core/raster.c:78-84 | exactly the cells of the rectangle on the surface take the color; all other cells and the padding stay |
| `Raster.RectCells` | core/raster.c:78-92 | a fill and a blend cell by cell: the cells of the rectangle on the surface, found by their coordinates, and no others |
| `Raster.Frame` | core/raster.c:104-110 | the four sides filled in order, nothing for an empty rectangle |
| `Raster.Bevel` | core/raster.c:112-118 | two light sides, then two dark ones, nothing for an empty rectangle |
| `Raster.ClipToSource` | core/raster.c:125-129 | the first clipping keeps exactly the source cells of the rectangle that are on the source, with the same offset |
| `Raster.ClipToDest` | core/raster.c:131-135 | the second clipping gives exactly the destination cells the rectangle lands on |
| `Raster.Blit` | core/raster.c:122-141 | for any offset and source rectangle exactly the cells in both clipped rectangles take their source pixel |
| `Raster.BlitAlpha` | core/raster.c:143-155 | for any offset exactly the covered cells are blended with their source pixel |
| `Raster.BlitPointwise` | core/raster.c:122-155 | cell by cell, by coordinates alone: a cell on the surface, in the landing rectangle and over the source takes or blends the pixel at its offset; every other cell and all padding stay |
| `Downscale.Cuts` | core/raster.c:160-169 | the cuts meet, cover the side and never leave an empty part when the destination is no larger |
| `Downscale.BoxOnSource` | core/raster.c:160-169 | every sample box lies on the source and holds a pixel, whatever the two sizes |
| `Downscale.BoxSides` | core/raster.c:160-169 | for any two sizes, larger destinations included: a box's side starts at the destination index's share of the source, rounded down, and ends at the next index's, or one further when that is the same |
| `Downscale.BoxesPartition` | core/raster.c:159-178 | with a destination no larger than the source the box sums add up to the source's channel totals |
| `Downscale.AverageExact` | core/raster.c:170-181 | up to 16843009 pixels the 32-bit sums cannot wrap: each channel is the floor of its box mean and lies between the extremes of the box |
| `Downscale.WhiteBoxWraps` | core/raster.c:170-181 | the bound is the best possible: every larger all-white box averages to less than white |
| `Downscale.EqualSizesCopy` | core/raster.c:157-184 | equal sizes give a copy |
| `Downscale.SumBox` | core/raster.c:170-178 | the inner loops compute the four channel sums and the count of the box in 32-bit words |
| `Downscale.DownscaleTo` | core/raster.c:157-184 | every logical destination cell becomes its box's average, padding stays, and an empty surface on either side changes nothing |
| `Font.HangulLookup` | core/font.c:20-29 | finds the code point exactly when the ascending set has it |
| `Font.CheckSequence` | core/font.c:44-49 | accepts exactly when all continuation bytes are there |
| `Font.GlyphsFrom` | core/font.c:225-243 | walking on from a glyph boundary sees exactly the remaining glyphs |
| `Font.OffTotal` | core/font.c:225-244 | the glyphs' bytes are the whole text |
| `Font.GlyphsCut` | core/font.c:34-49 | cutting a text at a glyph boundary leaves the glyphs before it as they were, malformed UTF-8 included |
| `Font.CutAfter` | core/font.c:34-49 | a cut anywhere at or after a glyph boundary leaves the glyphs before it as they were |
| `Font.StrayBytes` | core/font.c:34-49 | a glyph cut short leaves stray bytes that read as a blank each |
| `Font.Measure` | core/font.c:222-250 | the length and width of the longest run of glyphs that fits, at least one glyph, up to a newline |
| `Font.GlyphStep` | core/font.c:227-238 | the advance and byte length of the glyph at the cursor |
| `Font.TextWidth` | core/font.c:252-255 | the width up to the first newline times the scale, at least one |
| `FontLaws.ReadsCharacter` | core/font.c:158-202 | every character in the UTF-8 of RFC 3629 is one glyph as long as its bytes: Latin for printable ASCII, Hangul for a syllable of the font, a newline, or a blank |
| `FontLaws.ReadsStrayByte` | core/font.c:31-49 | a byte that begins no sequence, or one with its continuation bytes missing, is a blank by itself |
| `FontLaws.TakesMost` | core/font.c:222-250 | a line takes the longest run of glyphs before a newline whose pixels (5 or 18 each, and a gap of one between) are at most the width, at least one glyph, and all of them for a negative width |
| `Caption.Optimal` | ui/feed.c:139-153 | the greedy wrapping is a split at glyph boundaries and newlines, and no split whose lines fit or are one glyph uses fewer lines |
| `Caption.GreedyIsLeast` | ui/feed.c:143-151 | from any later starting point the greedy lines are no more than those of any split |
| `Caption.StaysAhead` | ui/feed.c:143-151 | wherever another allowed line ends, a greedy line that starts no earlier leads at least as far |
| `Caption.GreedySplits` | ui/feed.c:143-151 | the greedy lines are themselves a split |
| `Caption.WiderNeedsNoMore` | ui/feed.c:139-153 | a wider column never needs more lines |
| `Caption.RangesAreLines` | ui/feed.c:143-149 | the ranges handed out are the first 60 greedy lines, and the whole text is covered exactly when 60 suffice |
| `Caption.Lossless` | ui/feed.c:139-153 | the ranges are in order, disjoint and free of newlines, and with the skipped newlines rebuild the text up to where wrapping stopped |
| `Caption.LineInBytes` | ui/feed.c:145-150 | one line in bytes: its range, the newline after it, and where the next one starts |
| `Caption.NextRange` | ui/feed.c:144-150 | one turn of the loop gives the next greedy line and the start of the one after it |
| `Caption.WrapCaption` | ui/feed.c:139-153 | fills the array with exactly the first greedy lines, none for a missing or empty caption |
| `Draw.DrawGlyph` | core/font.c:158-198 | blends exactly the set bits of the glyph as squares of the scale |
| `Draw.ReadGlyph` | core/font.c:174-202 | the drawing loop decodes the same glyph, advance and length as the measuring loop |
| `Draw.FontDrawScaled` | core/font.c:150-204 | the buffer and the final cursor are those of drawing the glyphs one after the other, newlines included |
| `Draw.DrawsWhatItMeasures` | core/font.c:150-250 | a line moves the cursor by scale times its measured width and one more column, and changes no pixel outside the measured width and 18 rows times the scale |
| `Draw.BitsStayInside` | core/font.c:158-198 | a glyph changes no pixel outside its bitmap's rectangle |
| `Draw.TextInRows` | core/font.c:150-204 | no text changes a pixel above its top or below its lowest bitmap, newlines included |
| `Draw.DepthReached` | core/font.c:150-204 | and that depth is exact: on a surface with room a solid font inks the last of those rows |
| `Draw.TextInk` | core/font.c:150-204 | a text in an opaque color leaves no color behind but its own |
| `DrawLaws.GlyphCells` | core/font.c:158-198 | after a glyph a cell on the surface is blended once with the color exactly when the font's bit at the cell's row and column, divided by the scale, is set; every other cell is as it was |
| `DrawLaws.TextCells` | core/font.c:150-204 | a text in an opaque color, newlines and all, leaves the color in the cells with a bit of one of its glyphs, each glyph 6 or 19 columns after the one before it and 8 rows down after a newline, and every other cell as it was |
| `DrawLaws.LineCells` | core/font.c:150-204 | on one line of text in any color, a translucent one too, each cell belongs to at most one glyph and is blended at most once |
| `DrawLaws.GlyphsApart` | core/font.c:169-201 | no two glyphs of a line ink the same cell |
| `Feed.CopyLine` | ui/feed.c:159-162 | the copy holds the line's bytes up to the buffer's 511 |
| `Feed.DrawLine` | ui/feed.c:204-215 | a visible line is drawn plain, or cut to its budget with the label after it when it is the last of a truncated caption |
| `Feed.CaptionLines` | ui/feed.c:199-217 | as many lines as are visible are drawn in order, and the cursor ends below them |
| `Feed.CaptionBlock` | ui/feed.c:189-224 | the height is the same whether a surface is given or not; with one, exactly the strings of the block are painted in order |
| `Feed.PostCardHeight` | ui/feed.c:231-237 | the card's height from the caption's own measuring pass |
| `FeedLaws.ExpandedBlock` | ui/feed.c:189-224 | an expanded block draws every wrapped line plain and in order, 19 rows apart, under the likes and the username and above the comments; its height is 28 + 19 a line, and 8 for comments |
| `FeedLaws.CollapsedBlock` | ui/feed.c:189-224 | a collapsed block draws the first two lines, or all of up to two; the second is cut for the label exactly when there are more; its height is 28 + 19 a visible line, and 8 for comments |
| `FeedLaws.ExpandedIsWhole` | ui/feed.c:139-217 | where 60 lines and the line buffer suffice, the lines an expanded block draws and the skipped newlines rebuild the caption |
| `FeedLaws.MoreWidth` | ui/feed.c:124 | the label is 62 pixels wide in every font that knows its three syllables |
| `FeedLaws.FitsUncut` | ui/feed.c:158-163 | a text fitted to 18 to 766 pixels is at most 508 bytes, so its copy is not cut and measures no more than the room |
| `FeedLaws.LineIsFit` | ui/feed.c:145-147 | a wrapped line is exactly what fits the column from its start |
| `FeedLaws.CaptionLineFits` | ui/feed.c:204-215 | for columns of 80 to 766 pixels each line is copied uncut and lies in the column, the truncated one together with its label |
| `FeedLaws.RunStaysInColumn` | ui/feed.c:158-176 | a string in a column changes no pixel outside the column and its 18 rows |
| `FeedLaws.LinePaintsItsRows` | ui/feed.c:204-217 | a caption line's pixels lie in its column and in the 18 rows of its own line |
| `FeedLaws.LinesShareNoRow` | ui/feed.c:192-217 | two lines of a block share no pixel row, nor does any with the user line above |
| `FeedLaws.LabelFits` | ui/feed.c:168-176 | at every column width: the label of a truncated line ends inside its column exactly when the column is at least 62 pixels and the first glyph wide, and the text before it either fits the 512-byte buffer or, cut there, still measures at most the room left |
| `FeedLaws.CutMeasures` | ui/feed.c:170-173 | a text longer than the buffer measures, when copied, its whole glyphs and six pixels for every byte of the glyph cut short |
| `FeedLaws.LabelPushedOut` | ui/feed.c:168-211 | in a column of 829 pixels a long caption of four-byte characters has its label end 12 pixels outside |
| `FeedLaws.TakenUncut` | ui/feed.c:158-163 | what is taken of a text for up to 766 pixels is at most 508 bytes and reads as the same glyphs when cut there, its first glyph too wide or not |
| `FeedLaws.BufferSuffices` | ui/feed.c:124-126 | every line of every caption fits the 512-byte line buffer exactly in columns of 0 to 766 pixels; the comment calls the size generous headroom |
| `Paint.DrawPost` | ui/feed.c:243-299 | the surface holds exactly what the card's list of rectangles, strings and photo makes of it, in order; the caption block it paints ends POST_PAD rows above the card's bottom, which is where post_card_height puts it |
| `PaintCells.CardCells` | ui/feed.c:243-299 | after draw_post every cell of the surface has the color of what is on top there, and cells nothing reaches stay: by coordinates, the block's texts over the icons over the picture over its well over dots, location, username, avatar and the two rims of the card |
| `PaintCells.CardLatest` | ui/feed.c:243-299 | the last thing drawn that reaches a cell is the one on top by those rules, for every position, width and post |
| `PaintCells.PaintedCell` | ui/feed.c:243-299 | any drawing of opaque texts, fills and pictures leaves in each cell the color of the last step that reaches it |
| `PaintCells.GradientCell` | ui/feed.c:33-43 | each cell of a gradient has the color of its row |
| `PaintCells.ShadeIsRowColor` | ui/feed.c:36-41 | a row's channels are the weighted mean of the two colors, rounded down, by the row's share of the height out of 255 |
| `PaintCells.SunkenCell` | ui/feed.c:27-31 | the two rims of a sunken panel, dark over light, cell by cell |
| `PaintCells.RaisedCell` | ui/feed.c:19-24 | the two rims of a raised panel cell by cell |
| `Paint.PhotoWell` | ui/feed.c:271-284 | the sunken frame and in it the scaled photo, nothing without memory to scale it, or the gradient for a post without a photo |
| `Paint.Gradient` | ui/feed.c:33-43 | one row after the other, each in its own mix of the two colors |
| `PaintLaws.CardKeeps` | ui/feed.c:243-299 | a card changes the column of its left edge only in its own rows and turns none of it back into background; other rows keep every pixel when its texts have room, and turn nothing into background otherwise; nothing at all changes when the card lies beside the surface |
| `PaintLaws.CardReaches` | ui/feed.c:243-299 | a card changes no row above it, and none below the rows its texts reach down to |
| `PaintLaws.CardEdged` | ui/feed.c:19-23 | a card wider than nothing has its left edge covered from top to bottom in colors that are not the background's, whatever is drawn after it |
| `PaintLaws.TextsEndInCard` | ui/feed.c:189-299 | the condition on the texts (room for likes, username, location and comments) holds exactly when every string the card draws ends above its bottom |
| `PaintLaws.CardSpills` | ui/feed.c:243-299 | on a blank surface with room for the texts, in a solid font, draw_post leaves ink outside the card exactly when that condition fails; when it holds none is left in any font, on any surface |
| `PaintLaws.TallUsername` | ui/feed.c:243-299 | without a caption a username of n newlines and a letter has its room exactly for n up to 2 |
| `PaintLaws.SyllableTooDeep` | ui/feed.c:219-222 | a line of comments that is one Hangul syllable reaches two rows below the card's bottom |
| `PaintLaws.TallDepth` | core/font.c:156 | n newlines and a letter take 8n + 7 rows |
| `PaintLaws.PlainTextsFit` | ui/feed.c:243-299 | every text without a newline has its room, comments if they are Latin |
| `PaintLaws.BlockTexts` | ui/feed.c:189-224 | a caption block's strings end in the card exactly when its likes, username and comments do; the caption's own lines always do |
| `PaintLaws.BlockFitsCard` | ui/feed.c:231-297 | below header, photo and action bar the block has exactly the room post_card_height gave it, POST_PAD above the bottom |
| `PaintLaws.FitHasNoNewline` | ui/feed.c:145-150 | no caption line holds a newline byte, so no caption can break lines when drawn |
| `PaintLaws.TextGoesRight` | core/font.c:150-204 | however a text breaks its lines, nothing left of where it starts changes |
| `PaintLaws.PaintedLocal` | ui/feed.c:243-299 | what a drawing leaves in some rows depends on what was in those rows alone |
| `Screen.CardsApart` | ui/feed.c:312-324 | cards lie one below the other, at least a gap apart |
| `Screen.OwnerIsTheCard` | ui/feed.c:429-440 | a row's owner, found from the top, is the one card that has the row |
| `Screen.OwnerInContent` | ui/feed.c:426-440 | no card has a row above the first gap or past the content height |
| `Screen.ContentHeightReal` | ui/feed.c:312-324 | the content height is where the gap below the last card ends |
| `Screen.ClickReal` | ui/feed.c:415-442 | toggles the owner of the content row under the click and nothing else; reports a hit exactly when there is one |
| `Screen.FillRealPosts` | ui/feed.c:392-409 | the content surface holds exactly what drawing the cards in order, each at its place, makes of a blank one |
| `Screen.CardIsItsOwn` | ui/feed.c:392-409 | unless a text of an earlier card reaches down to it, every row of a card's in the content is what draw_post leaves of that card alone on a blank surface |
| `Screen.TextsStayUnreached` | ui/feed.c:392-409 | when all texts end in their own cards none reaches another, so every card is its own |
| `Screen.ContentIsShown` | ui/feed.c:392-409 | on every content row the left edge column is background exactly where hit-testing finds no card; rows without a card are background all over when every text ends in its card |
| `Screen.PlainTextsStay` | ui/feed.c:392-409 | without newlines in usernames and likes texts every text ends in its card |
| `Screen.CardShown` | ui/feed.c:392-409 | painting one more card leaves every earlier card's edge and every gap as they were |
| `Screen.ShownAll` | ui/feed.c:392-440 | painting the cards in order and searching them in order give each row the same owner |
| `Screen.StripRows` | ui/feed.c:364-365 | the clipped blit covers exactly the viewport rows that have a content row, each from its own content row |
| `Screen.StripShows` | ui/feed.c:364-365 | after the blit every viewport pixel reads as the content row under it |
| `Screen.StripIsContent` | ui/feed.c:364-365 | every viewport pixel is the content pixel under it, or background past the end of the content |
| `Chrome.DrawChrome` | ui/feed.c:329-347 | the surface holds what the app bar's fills, the title, its icon, the nav bar and its five icons make of what was there |
| `Chrome.ChromeCells` | ui/feed.c:329-347 | the bars cell by cell, at every window size: the nav icons, the nav bar with its two lines, the app icon, the bits of the word Instagram at twice their size, the rule, the blue bar; no other cell changes |
| `Screen.ChromeBars` | ui/feed.c:329-347 | every pixel of the app bar, the rule and the nav bar is a color of its own, and no other pixel changes |
| `Screen.ContentCells` | ui/feed.c:392-409 | every content pixel has the color of what is on top of the last card that reaches it, or the background, however the cards reach into each other |
| `Screen.PostTexts` | ui/feed.c:392-409 | the strings of a post: its username in the header, then the block of its likes, username and caption, at their coordinates |
| `Screen.ClickGrows` | ui/feed.c:415-442 | toggling a post of k > 2 lines changes the content height by exactly 19 * (k - 2), up when it expands and down when it collapses; for k up to 2 the height stays |
| `Screen.ShortClickSame` | ui/feed.c:392-442 | toggling a post of up to two lines changes no pixel of the content |
| `Screen.DrawScrollable` | ui/feed.c:350-371 | every pixel of the window: the bars' color by coordinates, or the content pixel at the clamped offset, or bare background past its end and when the content surface cannot be had; and every row reads as its label |
| `Window.EveryRunIsGood` | pal/pal_win32.c:120-210 | after every sequence of create, resize, scrollbar, key, wheel and click events, at any width, the offset is between 0 and the largest the content allows, and the scrollbar shows the current content, page and offset |
| `Window.StepKeeps` | pal/pal_win32.c:120-210 | one event keeps that, and changes nothing of a post but its expanded flag |
| `Window.PaintClampIsIdentity` | ui/feed.c:354-360 | draw_scrollable's own clamp never moves the content of a settled window |
| `Window.ClickHitsWhatIsSeen` | ui/feed.c:350-442 | in every reachable state, on a row below the rule and above the nav bar, a click toggles exactly the post whose card is seen there, if and only if there is a backbuffer, the content surface is granted within 2^28 pixels and the window is wider than 12, or no card has the row |
| `Window.AgreesWhenVisible` | ui/feed.c:350-442 | the same in every settled state |
| `Window.ClickHitsPixels` | ui/feed.c:243-442 | in every reachable state, between the bars, the painted pixel in the column of the left card edge is not background exactly when cards can be seen and a click on its row toggles a post |
| `Window.EveryPixel` | pal/pal_win32.c:67-210 | in every reachable state with a backbuffer, every pixel of the painted window is the bars' color at its coordinates, or what is on top in the content exactly `scroll` rows further down, or background |
| `Window.SeenIsTheCard` | ui/feed.c:243-442 | in every reachable state, between the bars, where a click toggles the i-th post and cards can be seen, every pixel of the row is the one draw_post gives that row of the i-th card alone, unless a text of an earlier card reaches down to it |
| `Window.PartingWays` | ui/feed.c:350-442 | three runs after which a click toggles a card that is not seen: a feed too large for a surface, a backbuffer lost in a resize, a window 12 wide |
| `Window.ClickHitsWhatIsUnder` | ui/feed.c:415-442 | on every viewport row, the row hidden by the rule included, a click toggles exactly the post whose card the content under it shows; in windows up to 12 wide the content shows none |
| `Window.BandClicks` | ui/feed.c:415-442 | some row of a band of window rows higher than a gap toggles a post exactly when the content under it reaches between the first and the last gap |
| `Window.AppBarClicks` | ui/feed.c:425-426 | some row of the app bar toggles a post exactly when the feed is scrolled past the first gap |
| `Window.NavBarClicks` | ui/feed.c:415-442 | some row of the nav bar toggles a post exactly when the content behind it is past the first gap and goes on below the start of the bar |
| `Window.BarsToggle` | pal/pal_win32.c:172-177 | both do after one key down in a window of 300 by 200, with any feed that is not empty |
| `Window.ThumbReaches` | pal/pal_win32.c:77-104 | the thumb's last position is the code's largest offset exactly when the window is higher than the bars |
| `Window.ScrollsAsNamed` | pal/pal_win32.c:143-184 | every key and scrollbar code moves to its exact target, or to the end it runs past: 40 rows for a line, the viewport less 20 (40 when that is less) for a page, the ends, the thumb position; other keys, codes and messages change nothing |
| `Window.HomeAndEnd` | pal/pal_win32.c:180-181 | Home and End reach the ends of exactly the content within 2^30 rows of the offset |
| `Window.DownThenUp` | pal/pal_win32.c:176-177 | a line down and a line up cancel exactly when the line down had room or the feed was at its top |
| `Window.WheelMoves` | pal/pal_win32.c:185-187 | the wheel moves 48 rows for every whole notch of 120, up for a turn away, or to the end it runs past; less than a notch moves nothing |
| `Window.FurthestOffset` | pal/pal_win32.c:77-84 | a positive offset is allowed exactly when a viewport of that height still fits below it in the content |
| `Window.OffsetKept` | pal/pal_win32.c:87-104 | after a create, a resize or a hitting click the offset is the old one if the content still allows it, and otherwise the largest it allows; range, page and thumb follow |
| `Window.SizeTaken` | pal/pal_win32.c:39-65 | the window takes the new size, each side at least one, exactly when it gets a backbuffer, and keeps the old size otherwise |
| `Window.TwoClicks` | pal/pal_win32.c:188-198 | two clicks in the same place restore the whole state whenever the content after the first still allows the offset and the card still has the row |
| `Window.TogglesOwner` | ui/feed.c:415-442 | a click toggles exactly the owner of the content row under it, and no post when there is none |
| `Window.PalWindow.MaxOffset` | pal/pal_win32.c:77-84 | the largest offset for the current size and content, never negative |
| `Window.PalWindow.SyncScrollbar` | pal/pal_win32.c:87-104 | clamps the offset and gives the scrollbar range, page and position |
| `Window.PalWindow.ScrollBy` | pal/pal_win32.c:107-116 | moves by the delta, clamped at both ends, and moves the thumb with it |
| `Window.PalWindow.Resize` | pal/pal_win32.c:39-65 | the old backbuffer is gone; a new one has sides of at least one, and without one the old size stays; then a sync |
| `Window.PalWindow.OnScroll` | pal/pal_win32.c:143-171 | each scrollbar code's target, clamped |
| `Window.PalWindow.OnKey` | pal/pal_win32.c:172-184 | each key's delta, clamped; other keys do nothing |
| `Window.PalWindow.OnClick` | pal/pal_win32.c:188-198 | the toggled posts, and a sync exactly after a hit |
| `Window.PalWindow.Dispatch` | pal/pal_win32.c:120-210 | every event arm refines the state machine's step and keeps the window settled |
| `Window.PalWindow.Handle` | pal/pal_win32.c:134-208 | the arms after creation refine the step |
| `Window.PalWindow.Paint` | pal/pal_win32.c:67-74 | every pixel is painted for the current size, offset and posts; without a backbuffer nothing changes |
| `JsonLaws.WhatFollows` | core/json.c:249-257 | a rendered value followed by anything that does not continue it is accepted exactly when only blanks follow and it nests at most 128 deep |
| `JsonLaws.ParsesEveryRendering` | core/json.c:137-257 | any rendering of a value in the grammar the parser takes, which contains RFC 8259, with any blanks, escapes and number form, is accepted exactly when it nests at most 128 deep, and rebuilds what the parser keeps of it in order |
| `JsonSound.Language` | core/json.c:20-257 | a text is parsed to a value exactly when it is a rendering of that value nested at most 128 deep: nothing malformed is accepted |
| `JsonSound.FoundValue` | core/json.c:234-247 | what the reader consumed is blanks and the text of a value of the grammar that nests within the limit |
| `JsonSound.FoundNumber` | core/json.c:137-157 | a number token read is a minus or none, digits or none, a dot with or without digits, an exponent mark with or without sign and digits |
| `JsonSound.FoundItems` | core/json.c:53-121 | a string read is a run of raw bytes and escapes up to its quote |
| `JsonRfc.ValueIsUnique` | core/json.c:234-247 | a text has at most one reading as a value, so what was accepted has one meaning |
| `JsonRfc.TextIsUnique` | core/json.c:249-257 | the same for a whole text with its blanks |
| `JsonRfc.AcceptedIsRfc` | core/json.c:20-257 | an accepted text is JSON by RFC 8259 exactly when its numbers have their digits and no needless zero and its strings no bare control byte |
| `JsonRfc.LooseNumbers` | core/json.c:137-148 | every number token of the looser form is accepted, and is an RFC 8259 number exactly when its whole part is there without a needless zero and digits follow a dot and an exponent mark |
| `JsonRfc.NumberTokens` | core/json.c:137-157 | a text is accepted whole as a number exactly when it is of the looser form |
| `JsonRfc.Alphabet` | core/json.c:22-77 | blanks, digits and hexadecimal digits are the characters RFC 8259 names |
| `JsonRfc.ShortEscapes` | core/json.c:56-67 | the characters after a backslash and what each stands for, and no others but u |
| `JsonRfc.Marks` | core/json.c:137-247 | the grammar's brackets, colon, comma, quote, signs and three names, as RFC 8259 writes them |
| `JsonRfc.QuadIsNumber` | core/json.c:68-78 | four hexadecimal digits stand for the number they write |
| `JsonMeaning.DecodedIsMeaning` | core/json.c:53-121 | the decoded bytes are the string's meaning (a pair of escapes is one character only when it names a high and a low surrogate, any other escape is its own code point) exactly when no high surrogate's escape has an escape after it that names no low surrogate |
| `JsonMeaning.NoLonger` | core/json.c:79-95 | what is decoded is never longer than the string's meaning |
| `JsonMeaning.KeptIsMeaning` | core/json.c:205-232 | what is kept is the value itself exactly when its strings mismatch no surrogate and no key holds a NUL |
| `JsonLaws.MergedEscapes` | core/json.c:79-95 | the escapes uD800 and u0041 are merged into U+2441: three bytes are kept, and the A is lost |
| `JsonLaws.RoundTrip` | core/json.c:249-257 | parsing a rendering gives the meaning of what was rendered exactly when it nests at most 128 deep and mismatches no surrogate, and no key holds a NUL |
| `JsonLaws.TrailingTextRejected` | core/json.c:254-255 | a value followed by anything but blanks is refused, unless the text comes at once and continues a number |
| `JsonLaws.NumberRunsOn` | core/json.c:137-148 | a number takes in all that continues it, and the text is accepted exactly when only blanks are left after that |
| `JsonLaws.AcceptedDepth` | core/json.c:187-207 | no accepted text, well-formed or not, nests deeper than 128 |
| `JsonStrings.PassesAgree` | core/json.c:39-122 | on every input: when decoding succeeds both passes stop at the same quote; when it fails the cursor is at most one past the quote the scan found, and past it exactly when well-formed characters lead to a \u escape with fewer than four digits, and nothing else, before that quote |
| `JsonStrings.CutShortIsConsumed` | core/json.c:68-92 | an escape cut short by a quote, after any well-formed characters, makes the cursor pass the quote the scan stops at |
| `JsonStrings.ConsumedIsCutShort` | core/json.c:68-92 | and whenever the cursor passes that quote, the text is of this form |
| `JsonStrings.EscapeScan` | core/json.c:56-115 | an escape the decoder accepts ends before the scanned quote, one it refuses stops at or one past it |
| `JsonLaws.Utf8Correct` | core/json.c:97-111 | the bytes written are well-formed UTF-8 (RFC 3629) that reads back to the code point exactly when it is a scalar value |
| `JsonLaws.AstralCorrect` | core/json.c:79-95 | a high and a low surrogate give each scalar value above 0xFFFF once |
| `JsonText.ReadsEscape` | core/json.c:56-115 | every escape is read whole, as the code point the decoder assembles; a high surrogate with any escape after it is one item |
| `JsonText.ReadsItems` | core/json.c:53-121 | a string of raw and escaped characters is read item by item and ends after its quote |
| `JsonText.ReadsNumber` | core/json.c:137-157 | a number of the looser form, RFC 8259 forms included, is read whole and kept as its text |
| `JsonText.ReadsValue` | core/json.c:234-247 | a rendered value at any depth, followed by nothing that continues it, is read exactly when its nesting still fits, and the reader stops at its end |
| `Json.StringTail` | core/json.c:53-121 | the bytes decoded are never more than the bytes consumed |
| `JsonParser.Cursor.SkipWs` | core/json.c:22-28 | skips exactly the blanks |
| `JsonParser.Cursor.Scan` | core/json.c:43-48 | finds the closing quote, skipping escaped characters |
| `JsonParser.Cursor.Decode` | core/json.c:53-121 | fills the buffer the scan sized without overrunning it and stops at the same quote, or fails where the decoder gives up |
| `JsonParser.Cursor.ReadUnicode` | core/json.c:68-95 | the code point of a \u escape, with its low half after a high surrogate |
| `JsonParser.PutUtf8` | core/json.c:96-111 | appends the code point's UTF-8 form |
| `JsonParser.ParseStringRaw` | core/json.c:39-122 | the decoded text in one new block, or nothing left allocated; fails only on a bad string or a refused request |
| `JsonParser.ParseStringValue` | core/json.c:124-133 | a string node that owns its text, or nothing left allocated |
| `JsonParser.ParseNumberValue` | core/json.c:137-157 | a number node that owns its text, or nothing left allocated |
| `JsonParser.ParseLiteralValue` | core/json.c:159-166 | true, false or null as their node, or nothing left allocated |
| `JsonParser.PushChild` | core/json.c:169-183 | appends the child, and its key; on a refused request the parent keeps what it had and the caller keeps key and child |
| `JsonParser.ParseArrayValue` | core/json.c:185-203 | the array's elements in order, the depth counter restored on success, everything released on failure |
| `JsonParser.ParseObjectValue` | core/json.c:205-232 | the object's members in order, the depth counter restored on success, everything released on failure |
| `JsonParser.ParseDom` | core/json.c:234-247 | for every schedule of refused requests: the parsed value with exactly its blocks live, or no block left |
| `JsonParser.ParseJson` | core/json.c:249-257 | succeeds exactly on an accepted text with no request refused; a failed parse leaves no live block behind |
| `JsonParser.Release` | core/json.c:259-269 | releases exactly the tree's blocks, each once |
| `Heap.Allocator.Malloc` | core/json.c:30-34 | a block that was not live before, or a counted refusal |
| `Heap.Allocator.Realloc` | core/json.c:171-179 | a block in place of the old one, or the old one kept |
| `Heap.Allocator.Free` | core/json.c:259-269 | only a live block can be released, so none is twice |
| `HttpLaws.RoundTrip` | core/http.c:108-177 | a response with any status, headers and framing (Content-Length, any split into non-empty chunks with extensions, or close; chunked first) parses to what was sent, headers in order |
| `HttpLaws.ResponseReadsBack` | core/http.c:118-155 | whatever the body, status, reason and headers read back and the body is what the framing makes of the rest |
| `HttpLaws.HeadersReadBack` | core/http.c:131-150 | header lines read back in order with the blanks after the colon dropped, and reading stops after the blank line |
| `HttpLaws.StatusReadsBack` | core/http.c:118-127 | the status code and the reason phrase of a status line |
| `HttpLaws.LookupIsFirst` | core/http.c:188-193 | a lookup gives the value of the first header of the name in any case, and fails only when there is none |
| `HttpLaws.LengthFraming` | core/http.c:166-171 | without chunks the first Content-Length takes that many bytes: all that is there when it asks for more, none when the number is negative or no number; a sign, leading zeros and text after the digits included, values wrapped to 32 bits |
| `HttpLaws.ChunksReadBack` | core/http.c:83-102 | any chunks, with extensions, LF or CR LF after the size, either case of digits, leading zeros, any line ends or none after the data and any trailer, decode to their data joined |
| `HttpLaws.ChunkCutShort` | core/http.c:88-98 | a chunk with less data than its size gives what is there; a size of zero, or one that wraps below it, ends the body |
| `HttpLaws.ChunkedFraming` | core/http.c:159-165 | chunked framing reads back even beside a Content-Length |
| `HttpLaws.ChunkedOnlyBare` | core/http.c:159 | a Transfer-Encoding is taken for chunked exactly when chunked is its final coding by RFC 9112 and it holds no comma and no blank |
| `HttpLaws.MissedChunked` | core/http.c:159-175 | under "chunked" with a blank after it, or "gzip, chunked", the body is handed over with its chunk sizes in it |
| `HttpLaws.DechunkIsMonotone` | core/http.c:79-106 | decoding any truncation of any input gives a prefix of decoding the whole, whatever the chunk sizes |
| `HttpLaws.RequestReadsBack` | core/http.c:57-70 | after its first line a request reads back as Host, the caller's headers in order, the length of a body that is there, and the body |
| `HttpLaws.ReadsLong` | core/http.c:19-26 | every text is blanks, a sign or none, digits or none and a rest, and the number read is the value of the digits, negated after a minus and wrapped to 32 bits |
| `HttpLaws.ChunkedIsSaid` | core/http.c:157-159 | the body is taken for chunked exactly when the first Transfer-Encoding header says chunked in any case and nothing else |
| `Numerals.ReadsDigits` | core/http.c:24 | digits of either base and any length are read as their value wrapped to 32 bits |
| `HttpWire.TakesReplies` | core/http.c:108-150 | a reply is taken exactly when it has twelve bytes or more, its first line a space, and its head a blank line at the end, all before any NUL |
| `HttpWire.EolIsFirst` | core/http.c:120-132 | a line ends at the first CR LF, unless a NUL comes before it |
| `HttpWire.HeadEnds` | core/http.c:130-150 | the headers are taken exactly when a blank line follows, and the body starts after the first one |
| `HttpWire.StatusParts` | core/http.c:123-127 | in any first line the number follows the first space, and the reason the second, if there is one |
| `HttpWire.LineDropped` | core/http.c:136-149 | a header line without a colon is passed over |
| `HttpWire.LineRead` | core/http.c:136-148 | any other is a header: the name before the first colon, the value after it and any blanks |
| `HttpWire.SameMeansCase` | core/http.c:8-16 | names agree exactly when they are equal up to letters of the other case |
| `HttpWire.RequestBytes` | core/http.c:39-74 | the request byte by byte: method, path and HTTP/1.1, Host, the caller's headers in order, the body's length in decimal if there is a body, a blank line, the body |
| `Numerals.NumeralReadsBack` | core/http.c:28-35 | a written number is digits of its base that stand for it, without a needless zero in front |
| `Numerals.ReadsValue` | core/http.c:79-93 | the 32-bit reading loop gives the value of every digit string below 2^31 |
| `HttpText.Dechunk` | core/http.c:79-106 | the decoded bytes are never more than the input |
| `Http.Strstr` | core/http.c:120-132 | the first line end before any NUL |
| `Http.ParseLong` | core/http.c:19-26 | the number after any blanks and a sign |
| `Http.CiEq` | core/http.c:8-16 | equal up to the case of ASCII letters |
| `Http.FindHeader` | core/http.c:188-193 | the value of the first header of that name |
| `Http.DecodeOne` | core/http.c:83-102 | one chunk: what is appended, and that what is written and left never grows |
| `Http.DecodeChunks` | core/http.c:79-106 | the decoded bytes and a NUL, never more than the input and one byte |
| `Http.TakeStatusLine` | core/http.c:118-128 | ends the line with a NUL; code and reason of the line, the reason as a string in the buffer |
| `Http.TakeHeader` | core/http.c:135-148 | splits the line at its colon with a NUL; name and value become strings in the buffer, nothing outside the line changes |
| `Http.TakeHeaders` | core/http.c:131-150 | the header array names the headers in order and every write stays behind the cursor; fails without a blank line or for want of memory |
| `Http.TakeBody` | core/http.c:152-175 | the framed body, in a block of its own when chunked |
| `Http.ParseResponse` | core/http.c:108-177 | fails exactly on what the specification refuses or on a refused request, and then owns nothing; otherwise the strings in the buffer say exactly the parsed response |
| `Http.HttpResponse.Free` | core/http.c:179-186 | releases exactly the response's blocks |
| `Http.HttpResponse.RepresentsOne` | core/http.c:108-177 | the buffer and its pointers say at most one response |
| `Http.StringIsUnique` | core/http.c:142-147 | a pointer names at most one string |
| `Http.PutUint` | core/http.c:28-35 | appends the shortest decimal form |
| `Http.BuildRequest` | core/http.c:39-74 | NULL exactly for a missing part or a refused buffer; otherwise the request, every write inside the size asked for |
| `Calendar.GmtimeIsExact` | net/mbedtls_platform_nt4.c:40-75 | for every time, negative included: a real date and time of day that together are the time given |
| `Calendar.CivilIsExact` | net/mbedtls_platform_nt4.c:50-60 | the date found for a day is real and is that day |
| `Calendar.DaysAreExact` | net/mbedtls_platform_nt4.c:50-60 | every real date is found from its own day |
| `Calendar.ConsecutiveDays` | net/mbedtls_platform_nt4.c:50-60 | consecutive days are consecutive dates |
| `Calendar.NextDay` | net/mbedtls_platform_nt4.c:40-75 | a day later is the next date, the next weekday and the same time of day |
| `Calendar.WeekdayIsExact` | net/mbedtls_platform_nt4.c:62-63 | day 0 is a Thursday and the weekdays follow each other modulo 7 |
| `Calendar.YearFieldIsExact` | net/mbedtls_platform_nt4.c:70 | the narrowed year is right exactly from -67768040609740800 up to 67768036191676800 seconds |
| `Calendar.YearLength` | net/mbedtls_platform_nt4.c:50-60 | the closed form for the days before a year grows by 366 after a leap year and 365 after any other |
| `Calendar.NextDateIsNextDay` | net/mbedtls_platform_nt4.c:50-60 | the date after a real date is real and one day later |
| `Calendar.DatesAreDistinct` | net/mbedtls_platform_nt4.c:50-60 | different real dates are different days |
| `Calendar.YearFound` | net/mbedtls_platform_nt4.c:53-54 | the three corrections take away exactly the leap days before the day |
| `Calendar.MonthFound` | net/mbedtls_platform_nt4.c:57-58 | the month rule on every day of a year counted from March |
| `Calendar.EraIsFloor` | net/mbedtls_platform_nt4.c:52-53 | the truncating division rounds down, below zero too |
| `Printf.Vsnprintf` | net/mbedtls_platform_nt4.c:104-155 | for every buffer size an int can hold it returns the full length; a buffer holds as much as fits and a NUL, and nothing beyond the size is touched |
| `Printf.SizeFitsInt` | net/mbedtls_platform_nt4.c:105-154 | the closing NUL lies in the buffer exactly when the size is below 2^31; a larger one puts it in front |
| `Printf.EmitAll` | net/mbedtls_platform_nt4.c:108-151 | the format loop counts every character of the unbounded output and keeps those below the limit |
| `Printf.EmitDirective` | net/mbedtls_platform_nt4.c:110-150 | one directive: what it prints, the argument it takes, and where the format goes on or ends |
| `Printf.EmitSigned` | net/mbedtls_platform_nt4.c:127-132 | the sign, then the padded magnitude, the most negative value included |
| `Printf.EmitUint` | net/mbedtls_platform_nt4.c:91-102 | the padded digits of the value |
| `Printf.Emit` | net/mbedtls_platform_nt4.c:83-89 | every character counted, those below the limit stored |
| `PrintfFormat.FormatPrints` | net/mbedtls_platform_nt4.c:104-155 | for every format written as plain text, %% and directives (zero flag, width digits, l and z, conversion letter): the text as it is and each directive's field in order, one argument each, with the written flag and width; a directive broken off at the end prints its percent sign |
| `PrintfFormat.EveryFormat` | net/mbedtls_platform_nt4.c:108-151 | every format the printer has the arguments for is of this form |
| `PrintfFormat.Snprintf` | net/mbedtls_platform_nt4.c:157-163 | the length of that text, and as much of it as fits with a NUL after it |
| `PrintfFormat.DirectivePrinted` | net/mbedtls_platform_nt4.c:110-150 | one directive prints its piece, takes its argument and the format goes on after it |
| `PrintfFormat.MarksAreRead` | net/mbedtls_platform_nt4.c:111-115 | flag, width and modifiers are read as they are written |
| `PrintfFormat.PieceIsStandard` | net/mbedtls_platform_nt4.c:117-149 | a piece prints what C99 asks for exactly when it is no negative number wider than its digits and no character or text narrower than its width |
| `PrintfFormat.DigitsAgree` | net/mbedtls_platform_nt4.c:91-96 | numbers are printed in the digits 0 to 9, a to f or A to F, most significant first |
| `PrintfLaws.PaddedReadsBack` | net/mbedtls_platform_nt4.c:91-102 | digits printed in base 10 or 16, with leading zeros or not, read back to the value |
| `PrintfLaws.PaddedWidth` | net/mbedtls_platform_nt4.c:97-98 | a padded number is as wide as asked for, or as its digits |
| `PrintfLaws.SignedIsStandard` | net/mbedtls_platform_nt4.c:127-132 | %d prints what C99 asks for exactly unless the value is negative and the width exceeds its digits |
| `PrintfLaws.UnsignedIsStandard` | net/mbedtls_platform_nt4.c:133-144 | %u, %x and %X with any width, the zero flag set or not, print what C99 asks for |
| `PrintfLaws.HexCases` | net/mbedtls_platform_nt4.c:133-144 | %x and %X print the same digits up to case |
| `PrintfLaws.TextIsStandard` | net/mbedtls_platform_nt4.c:120-126 | %s prints what C99 asks for exactly when the text is as wide as its width |
| `PrintfLaws.CharIsStandard` | net/mbedtls_platform_nt4.c:119 | %c prints what C99 asks for exactly when its width is at most one |
| `PrintfLaws.SignedReadsBack` | net/mbedtls_platform_nt4.c:127-132 | the HTTP code's number reader gives back what %d printed exactly unless it is negative and padded with spaces |

## Left out

- Sockets, TLS and the programs around them (`pal/net_win32.c`, `net/https_get.c`, `net/*_main.c`): foreign calls.
- JPEG decoding: stb_image is not part of this model, nor is the loop that repacks its bytes into pixels.
- `core/model.c`, `core/model_private.c`, `net/ig_private.c` and the primitives of `pal/nt4_crt.c`: field mapping and library functions; strstr, strchr and memcpy appear as the loops they stand for.
- The JSON accessors and the text of the likes line (`format_likes`): lookups in a finished tree and a digit loop, which no other result here depends on.
- The mock feed and `gradient_from_name`: a fixed list of posts, and a hash of the username that gives the two gradient colors; the colors are arbitrary here.
- Window creation, the DIB section, BitBlt, logging and file reading: only size, offset, scrollbar and posts of the window are kept, and a refused backbuffer is a flag of the event; the quit message WM_DESTROY posts is not modelled. A window without a content height or click callback, as the mock feed has none for clicks, is not modelled.
- Signed overflow of C's `int`: sizes, cursors and scroll targets are unbounded integers, so coordinates near 2^31 are not captured, nor are content heights beyond 2^30. Where the code's arithmetic does wrap on sensible inputs (byte sums, 32-bit pixel sums, number reading, the printed magnitude, tm_year) the wrap is written out.
- Numerals.Read: models the overflow of the 32-bit accumulator in parse_long, dechunk and the printer's width as wrap-around, which C leaves undefined.
- Printf.NegationIsMagnitude: models negating the most negative long as wrap-around, which C leaves undefined.
- Paint.DrawPost: a post's photo must not lie on the array being painted, and the laws about the card are stated for cards no narrower than -12, as every surface gives. Frees are not modelled.
- Screen.FillRealPosts: is stated for a surface without padding, as surface_alloc makes it.
- Window.SeenIsTheCard: asks that no earlier card's text reaches down to the card; `Window.EveryPixel` gives the pixels where one does.
- Raster.Blit: the two surfaces must lie on different arrays. memcpy asks for rows that do not overlap; two surfaces on disjoint parts of one buffer, which surface_wrap allows, are not covered.
- Raster.BlitAlpha: the same restriction, though the C loop is defined for one buffer too; nothing in the repository draws a surface onto itself.
- Downscale.DownscaleTo: the same restriction.
- Raster.Surface: a pixel is four channel bytes instead of one packed word, and surfaces are not freed.
- Font.HangulLookup: the table is any strictly ascending sequence; the laws about the label ask that it hold the label's three syllables. Glyph bitmaps are arbitrary functions.
- Qoi.Encode: the file size must fit the target's 32-bit long, as the code's own size arithmetic needs.
- JsonParser.ParseJson: a tree is a value with its block numbers instead of linked structs, so sharing of nodes cannot be expressed; a text length that is not positive is the empty text.
- Http.ParseResponse: a header pointer is an offset into the buffer; a NULL data or out pointer and a negative length are not modelled.
- HttpLaws.RoundTrip: asks for a Content-Length below 2^31, as C's int needs; `HttpLaws.LengthFraming` says what any other number takes.
- Http.BuildRequest: the length of the body must fit an int; the other lengths are unbounded.
- PrintfFormat.FormatPrints: asks that every written width fit an int; C leaves the overflow of a wider one undefined.
- Printf.Vsnprintf: the size must be below 2^31, see Printf.SizeFitsInt; the arguments are a sequence that must match the format, as C requires of the caller; int and long are both 32 bits.
- Calendar.Gmtime: time_t is unbounded; `time()` itself reads the clock and is left out.
