# Verified model of the Links browser's algorithms

The Links browser bundled with Ginga decodes images, caches documents, draws a mouse cursor into a
framebuffer and divides windows among frames, all in hand-written C. This project models the algorithms
behind that in Dafny and proves what they promise. `dafny verify dfyconfig.toml` checks all of it.

Every component has a value-level description of what it is for, and imperative code that follows the
source loop by loop and is proved against that description.

- **GIF images** (`gif.c`). `GifLzw` is the code stream as GIF89a Appendix F describes it, with a
  dictionary of strings; `GifTable` represents such a dictionary by links; `GifDecoder` is the byte-driven
  decoder over those links; `GifScreen` and `GifRaster` place the pixels in the plain or the interlaced
  order of Appendix E; `GifBlocks` and `GifImage` add the sub-blocks and put everything together.
  `GifDeferred` compares the decoder with the standard where a clear code is deferred, and `GifStandard`
  says what both appendices ask for by counting codes and rows, without dictionary, table or passes.
- **The document cache** (`cache.c`). `Fragments` reads a list of byte fragments as a partial map from
  offset to byte; `Cache` changes entries in place under the global ledger; `CacheCollector` decides what
  a collection gives up.
- **Chunked bodies** (`http.c`, `connect.c`). `ChunkSize` is the C library's reading of a chunk size,
  `Chunked` reads a stream byte by byte, `ChunkedBody` says what a well-formed stream is,
  `ChunkedDelivery` what the cut into reads can change, and `ChunkedReader` is the decoder over a read
  buffer.
- **The mouse cursor** (`framebuffer.c`). `Canvas` is what drawing does to a picture and how the cursor
  covers it; `Framebuffer` does it on the screen, with the pixels under the cursor saved; `ScreenPixels`
  is what one pixel of the screen then is.
- **Error diffusion** (`dither.c`) in `Dither`, with the relation it solves in `Diffusion`; **resampling**
  (`dip.c`) in `Resample` and `Scaler`, with what samples and pixels become in `Sampling`.
- **The URL filter's patterns** (`block.c`) in `Glob`, **frame widths** (`html.c`) in `Frames`,
  `FrameShares` and `FrameInts`, **UTF-8 and the conversion table** (`charsets.c`) in `Utf8` and
  `Translation`, **the lookup queue** (`dns.c`) in `DnsLog` and `DnsQueue`, and **the configuration file**
  (`default.c`, with the lists of `types.c` and `block.c`) in `Config`, `ConfigText`, `ConfigFile` and
  `ConfigLists`.

Some promises do not hold of the code, and the model keeps the code as it is and says exactly when they
do:

- A GIF stream may defer its clear code when the table is full; this decoder ends the picture instead.
  It agrees with Appendix F if and only if no stretch of the stream between two clear codes holds more
  data codes than the table takes (`GifDeferred.DeferredAgrees`); other streams exist for every code size
  (`GifDeferred.FullReachable`).
- A blank chunk-size line takes its size from the bytes behind it. All deliveries of a stream have the
  same result if and only if it reaches no such line (`ChunkedDelivery.DeliveryMatters`).
- Dithering one pixel wide forgets its error between strips, unless there is none
  (`Dither.ColumnStrips`).
- A collection may delete an entry for which there was room, because it also counts locked entries. It
  deletes nothing needlessly if and only if these leave room for the smallest entry it gives up
  (`CacheCollector.NothingDeletedNeedlessly`; an example is `CacheCollector.LockedEntriesCrowdOut`).
- A killed lookup may be carried out without a place for its result: if and only if it was killed while
  it waited behind another one (`DnsLog.PlaceLost`; an example is `DnsLog.AtOnceWithoutPlace`).
- The lists in the configuration file do not all come back: associations and extensions with an empty
  field or an equal one in front of them are dropped, and the last blocked image comes to the front. The
  lists are unchanged if and only if no association or extension has an empty field or a twin and all
  blocked images are the same (`ConfigLists.FileBack`; two of them change places,
  `ConfigLists.TwoUrlsSwapped`). What is blocked stays the same (`ConfigLists.SameUrlsBlocked`).
- The sums and products of the division of a window among frames may leave 32 bits. All lists of a length
  keep them in range if and only if the list of the widest cells does (`FrameInts.FitsExactly`); in
  graphics mode, for windows from 100 pixels on, this means at most 4634 pixels and less than 2^31 for the
  sum of the cells (`FrameInts.GraphicsWindow`).

Conventions: where the modelled code calls `internal(...)`, the model asserts or requires that the branch is
not taken (the reports of `cache.c`, `charsets.c`, the lookup queue and the read buffer);
`overalloc()` is a bound on sizes that the model does not have. Pointers into a buffer are indices.
What the network, the clock, the thread library or the rest of the program decides is a parameter.

## Model

| member | source | states |
|---|---|---|
| GifLzw.NextCode | src/telemidia-links/gif.c:322-339 | masking and shifting the collected number takes off exactly the next `width` bits of the little-endian bit string, and decoding goes on with the rest, also when the width has just changed |
| GifLzw.NumSplit | src/telemidia-links/gif.c:334-337 | mask and shift of a number whose bits are `a` followed by `b` give the numbers of `a` and of `b` |
| GifLzw.RunConcat | src/telemidia-links/gif.c:322-339 | decoding a stream in two pieces, with the left-over bits carried over, is decoding it at once, for every cut |
| GifLzw.StepSound | src/telemidia-links/gif.c:245-314 | after every code the width is at most 12, exceeds the root size, still holds every code in use and, unless it is the least, would not hold the next one if it were one less; every string is non-empty and made of root indices |
| GifDecoder.Decoder.Unwind | src/telemidia-links/gif.c:214-231 | the string of any code in use is unwound completely, last index first, and the cap of 4096 never fires |
| GifTable.LearntEntry | src/telemidia-links/gif.c:296-308 | entering (last code, first index of the current string) makes the table represent the dictionary with one more string, and the current code represents the current string, even the code that was not yet in the table |
| GifTable.FreshTable | src/telemidia-links/gif.c:98-122 | the table after a clear code represents the empty dictionary |
| GifDecoder.Decoder.InitTable | src/telemidia-links/gif.c:98-122 | leaves a table that represents the cleared dictionary |
| GifDecoder.Decoder.FindFirst | src/telemidia-links/gif.c:193-208 | returns the first index of the string of any code in use, before the cap of 4096 or the range check is reached |
| GifDecoder.Decoder.OutputString | src/telemidia-links/gif.c:214-237 | the picture receives exactly the code's string, in order |
| GifDecoder.Decoder.AddTable | src/telemidia-links/gif.c:245-260 | the new table, position and width, and the end of the picture if the table is full |
| GifDecoder.Decoder.AcceptCode | src/telemidia-links/gif.c:267-314 | if the decoder stood at a dictionary state, it afterwards stands at the state that LZW with a dictionary of strings gives, and the picture has received that code's string; for any code at all the decoder stays within its table |
| GifDecoder.Decoder.AcceptByte | src/telemidia-links/gif.c:321-339 | a byte makes of decoder and picture what decoding its eight bits behind the bits left over makes of them, for every stream whose codes are valid up to the end of the picture |
| GifImage.ImageData.AcceptImageByte | src/telemidia-links/gif.c:502-518 | count bytes set the rest of the block, the empty block ends the picture, other bytes are decoded |
| GifImage.ImageData.RestartInternal | src/telemidia-links/gif.c:561-572 | any piece of the image data turns the picture into the one that decoding the unblocked payload gives, and leaves decoder and block counter where the next piece goes on |
| GifBlocks.UnblockInBlocks | src/telemidia-links/gif.c:502-518 | whatever the cut into non-empty sub-blocks and whatever follows the empty one, the payload comes back |
| GifBlocks.EarlyEnd | src/telemidia-links/gif.c:321-339 | once the picture has ended, the rest of the stream, valid or not, changes nothing |
| GifImage.WholeImage | src/telemidia-links/gif.c:502-572 | from the sub-blocks to the rows: a stream with enough valid codes gives the complete picture, each row holding the run of indices whose turn it is by Appendix E, whatever the cut into blocks and whatever follows |
| GifDeferred.DeferredAgrees | src/telemidia-links/gif.c:245-252 | for every stream the indices delivered are a prefix of those Appendix F asks for, and all of them if, and only if, no stretch without a clear code holds more than 4095 less 2^root data codes, as counted from the stream alone; what Appendix F asks for is said without the decoder in `GifStandard.DeferredReads` |
| GifDeferred.WithinStretches | src/telemidia-links/gif.c:245-252 | reading the stream code by code finds a stretch that is too long exactly if there is one |
| GifDeferred.FullReachable | src/telemidia-links/gif.c:245-252 | for every code size some stream of valid codes does meet a full table, and the two then differ |
| GifStandard.WidthNeeded | src/telemidia-links/gif.c:255-259 | by count alone: behind n codes the width is the least above root that has a number for code 2^root+1+n, up to 12 |
| GifStandard.DeferredReads | src/telemidia-links/gif.c:193-314 | Appendix F without a dictionary: for every stream, the indices delivered are, end to end, the strings of its codes, where a code past the control codes stands for an earlier string with the first index of the one behind it, which may be its own |
| GifStandard.ReadsUnique | src/telemidia-links/gif.c:193-314 | the codes have only one such reading |
| GifStandard.DataMeans | src/telemidia-links/gif.c:267-305 | a code other than the two control codes counts as data exactly if there is a string for it |
| GifStandard.BitAt | src/telemidia-links/gif.c:328-331 | the bits of a byte are taken from the lowest to the highest |
| GifStandard.TurnNumbers | src/telemidia-links/gif.c:145-188 | in numbers: of h interlaced rows, row 8i has turn i, row 8i+4 turn (h+7)/8+i, row 4i+2 turn (h+3)/4+i and row 2i+1 turn (h+1)/2+i; plainly, row i has turn i |
| GifStandard.PixelShown | src/telemidia-links/gif.c:502-572 | every pixel of a whole image: from any sub-blocks, a stream that needs no deferred clear code shows at x in row y the palette's colour of the index that stands at turn times width plus x in the strings of its codes |
| GifScreen.PixelsPlaced | src/telemidia-links/gif.c:128-190 | after any number of pixels that fit, plainly or interlaced: every finished row holds its own run of pixels, rows were finished in the order of the passes and each once, every other row shows the nearest finished row above it, the row pointer is at the current row, and the picture has ended exactly when all pixels are there |
| GifScreen.CompletePicture | src/telemidia-links/gif.c:128-190 | in a complete picture, plain or interlaced, each row holds the run of pixels whose number is its turn |
| GifScreen.TurnsInOrder | src/telemidia-links/gif.c:145-188 | the turns, which count the rows that come before, number the rows from 0 on in the order of the four passes, one for each row |
| GifScreen.TurnIsPosition | src/telemidia-links/gif.c:145-188 | any order of all rows that follows the passes has each row at its turn |
| GifScreen.ShowsNearest | src/telemidia-links/gif.c:155-173 | the row that a row shows is the nearest finished one at or above it |
| GifRaster.Raster.OutputPixel | src/telemidia-links/gif.c:128-190 | does to rows, position, pass and end flag what one pixel does to the picture value |
| GifRaster.Raster.SettlePasses | src/telemidia-links/gif.c:174-188 | skips passes without rows, also several at once, or ends the picture |
| Cache.Store.AddFragment | src/telemidia-links/cache.c:128-206 | the content, as a partial map from offset to byte, becomes the old one overridden by the block; everything at or past the block's end goes if, and only if, an overlapping byte differed; length, incompleteness, both counts of the entry, the cache's count and the ledger follow; the result is 0 exactly if the block is empty, or one fragment holds all of it and none ends where it begins |
| Cache.HeldBytes | src/telemidia-links/cache.c:145-164 | so a result of 0 means that every byte of the block was there before |
| Cache.Store.StoreBlock | src/telemidia-links/cache.c:145-200 | the same for placing, merging and truncating, with fragments kept sorted, disjoint and within their buffers |
| Cache.Store.Merge | src/telemidia-links/cache.c:182-199 | swallows every fragment the block overlaps, however many, and finds out whether any of their bytes differed |
| Cache.Store.Truncate | src/telemidia-links/cache.c:246-276 | the content becomes the old one below the offset, and the entry is incomplete if that cut something off |
| Cache.Store.TruncateEntry | src/telemidia-links/cache.c:246-276 | the same for a listed entry, keeping the ledger of the whole cache |
| Cache.Store.FreeEntryTo | src/telemidia-links/cache.c:278-294 | the content becomes the old one from the offset up, with the ledger kept |
| Cache.Store.DefragEntry | src/telemidia-links/cache.c:208-244 | the content is unchanged; the gapless run at offset 0 is afterwards one exactly full fragment |
| Cache.Store.DeleteEntryContent | src/telemidia-links/cache.c:296-312 | the entry is empty and the ledger is less by what it held |
| Cache.Store.LedgerNeverUnderflows | src/telemidia-links/cache.c:303-306 | the ledger covers every entry, so the two underflow reports cannot happen |
| Cache.DownloadInAnyOrder | src/telemidia-links/cache.c:128-206 | blocks of one document stored in any order and overlap never look like a change of the document: at the end exactly the bytes held before and those delivered are there |
| Fragments.PlaceGrown | src/telemidia-links/cache.c:148-155 | growing a fragment in its spare capacity overrides the map and detects differing bytes |
| Fragments.PlaceOver | src/telemidia-links/cache.c:161-164 | so does a block that lies within a fragment |
| Fragments.PlaceBehind | src/telemidia-links/cache.c:155-180 | so does cutting a fragment and putting the block behind it |
| Fragments.MergePart | src/telemidia-links/cache.c:183-191 | so does taking over the end of the next fragment |
| CacheCollector.Collector.ShrinkFileCache | src/telemidia-links/cache.c:332-392 | what a collection deletes: nothing, every unlocked entry, or the entries of the quota plan with nine tenths of the quota as target, which is determined; order and ledger of the others are kept, no count falls below zero, and the result flags are right |
| CacheCollector.PlanMade | src/telemidia-links/cache.c:357-379 | with the quota plan the unlocked bytes end at or below the target, and are the final count less the locked bytes in it; entries newer than the cut stay, and each deleted entry is unlocked and exceeds the target with the final count |
| CacheCollector.PlanUnique | src/telemidia-links/cache.c:357-379 | there is one quota plan for a cache: cut, deletions and final count are determined |
| CacheCollector.TakeBackFits | src/telemidia-links/cache.c:374-379 | what the second phase gives up does not fit its final count, and what it counts is the unlocked entries that stay and the locked ones that fitted |
| CacheCollector.RetakeTakesBack | src/telemidia-links/cache.c:374-379 | the loop of the second phase leaves the flags and the count of that phase |
| CacheCollector.LockedEntriesStay | src/telemidia-links/cache.c:360-364 | a referenced or loading entry is never deleted |
| CacheCollector.QuotaReached | src/telemidia-links/cache.c:357-379 | a collection over quota, with more unlocked bytes than the quota, leaves at most nine tenths of the quota unlocked; one within the quota deletes nothing |
| CacheCollector.StaysAt | src/telemidia-links/cache.c:380-386 | the entries that stay are those not marked, all of them, in their order |
| CacheCollector.NothingDeletedNeedlessly | src/telemidia-links/cache.c:374-379 | for every cache: every deleted entry would exceed the target beside the unlocked entries that stay if, and only if, nothing is deleted or the smallest entry deleted would; the condition is computed from sizes, locks and target |
| CacheCollector.LargeLocksHarmless | src/telemidia-links/cache.c:374-379 | in particular nothing is deleted needlessly if no locked entry would fit beside the newest entries that fit |
| CacheCollector.LockedEntriesCrowdOut | src/telemidia-links/cache.c:374-379 | whatever satisfies the contract of the collection deletes from a certain cache of four entries one that would have fitted |
| ChunkedReader.Download | src/telemidia-links/http.c:454-547 | stored bytes, offset and verdict are those of the delivery, for every stream, every cut into reads and whatever memory holds behind them; of a file too large the bytes that would still fit are left in the buffer |
| ChunkedReader.Reader.Receive | src/telemidia-links/http.c:454-547 | one more read takes the decoder to what the delivery of its bytes gives, blank size lines included |
| ChunkedReader.Reader.ReadHttpData | src/telemidia-links/http.c:482-545 | all that can be done with the buffer is done, and every jump back makes the buffer shorter |
| ChunkedReader.Reader.IsLineInBuffer | src/telemidia-links/http.c:442-452 | finds a complete line, none yet, or a control character, in every buffer |
| ChunkedReader.Reader.TakeData | src/telemidia-links/http.c:515-526 | hands over as much of the chunk as there is, or reports a file too large |
| ChunkedReader.SizeTaken | src/telemidia-links/http.c:502-513 | what `strtol` makes of a size line and the memory behind it is what the delivery makes of it |
| ChunkedDelivery.DeliveryMatters | src/telemidia-links/http.c:482-541 | all deliveries of a stream, in whatever pieces and with whatever memory behind them, store the same bytes with the same verdict if, and only if, it reaches no blank size line; then they do what reading byte by byte does |
| ChunkedDelivery.BlankLineDecides | src/telemidia-links/http.c:502-509 | for every stream that reaches one there are two deliveries in the same pieces that differ, one of them an error |
| ChunkedDelivery.BodyDelivered | src/telemidia-links/http.c:482-541 | a well-formed body is stored completely, however it is delivered |
| ChunkSize.SizeDetermined | src/telemidia-links/http.c:502-509 | the size read from a size line depends on that line alone if, and only if, the line is not blank; for a blank one the bytes behind it decide |
| ChunkSize.StrtolStop | src/telemidia-links/http.c:504-504 | a number followed by something that is no digit is the same number, whatever comes later |
| Chunked.RunConcat | src/telemidia-links/http.c:482-541 | reading byte by byte does not depend on where the stream is cut |
| ChunkedBody.ReadBody | src/telemidia-links/http.c:482-541 | a well-formed body (section 3.6.1 of RFC 2616), with any chunk sizes spelt in digits of either case, extensions and trailer, stores the chunks' data in order, finishes, and leaves what follows alone |
| ChunkedBody.SizeLineRead | src/telemidia-links/http.c:504-511 | every size line of the standard, with the digits of n in either case, is read as n |
| ChunkedBody.TrailerLineEnds | src/telemidia-links/http.c:485-498 | a trailer line ends the body if, and only if, it is empty or a single character before a bare line feed |
| ChunkedBody.ReadSizeLine | src/telemidia-links/http.c:500-513 | a size line leads to the chunk of that size, to the trailer for zero, and to an error from 2^31-1 on |
| ChunkedBody.BadLine | src/telemidia-links/http.c:442-452 | a control byte in a line, or a carriage return without a line feed, is an error whatever comes behind it |
| ChunkSize.NumberSpelt | src/telemidia-links/http.c:504-504 | exactly the spellings of n in base 16, with digits in either case and any leading zeros, are read as n |
| ChunkSize.StrtolSpelt | src/telemidia-links/http.c:504-504 | so they are behind any spaces, a sign and a prefix |
| ChunkSize.StrtolNothing | src/telemidia-links/http.c:504-505 | without a digit there, nothing is |
| Framebuffer.Screen.RedrawMouse | src/telemidia-links/framebuffer.c:654-678 | for every old and new position on the screen, overlapping or not, clipped on the right and below: the screen is the picture underneath with the cursor at the mouse position (pixel by pixel: `ScreenPixels.ShownPixel`), and the background buffer holds what is under it |
| Framebuffer.Screen.RedrawMouseSophisticated | src/telemidia-links/framebuffer.c:638-652 | the flicker-free redraw does the same as hiding and showing |
| Framebuffer.Screen.PlaceMouseComposite | src/telemidia-links/framebuffer.c:539-633 | drawing old background and new cursor in one scan turns the screen with the old cursor into the screen with the new one |
| Framebuffer.Screen.PutAndClipBackgroundBufferOverMouseBuffer | src/telemidia-links/framebuffer.c:503-534 | exactly the overlapping part of the new background is replaced by the old one |
| Framebuffer.MendedSaves | src/telemidia-links/framebuffer.c:638-644 | with that, the new background is free of the old cursor |
| Framebuffer.Screen.HideMouse | src/telemidia-links/framebuffer.c:389-418 | the screen is the picture underneath |
| Framebuffer.Screen.ShowMouse | src/telemidia-links/framebuffer.c:490-499 | the screen is that picture with the cursor, and what it covers is saved |
| Framebuffer.Screen.MouseMove | src/telemidia-links/framebuffer.c:344-360 | the position moves by the event as far as the edges of the screen allow, and the cursor follows it |
| Framebuffer.Screen.DrawBitmap | src/telemidia-links/framebuffer.c:1435-1448 | drawing acts on the picture underneath as if there were no cursor, clipped to the rectangle; the cursor stays shown or hidden |
| Framebuffer.Screen.FillArea | src/telemidia-links/framebuffer.c:1471-1484 | so does filling, on the intersection of area and clipping rectangle |
| Framebuffer.Screen.VScroll | src/telemidia-links/framebuffer.c:1545-1577 | so does scrolling vertically, though rows are overwritten in place |
| Framebuffer.Screen.HScroll | src/telemidia-links/framebuffer.c:1513-1543 | and horizontally |
| Framebuffer.Screen.CopyBitmap | src/telemidia-links/framebuffer.c:178-200 | the clipping arithmetic selects exactly the pixels inside the rectangle and the bitmap |
| Canvas.MoveLeft | src/telemidia-links/framebuffer.c:591-610 | a row with both cursors, the old one not sticking out on the left |
| Canvas.MoveRight | src/telemidia-links/framebuffer.c:580-589 | a row with both cursors, the old one sticking out on the left |
| Canvas.Repair | src/telemidia-links/framebuffer.c:503-534 | a row of the new background after the repair is the row of the picture |
| Canvas.DrawnBeside | src/telemidia-links/framebuffer.c:143-150 | an operation inside a rectangle clear of the cursor commutes with covering the picture by the cursor |
| Canvas.SetClipArea | src/telemidia-links/framebuffer.c:1579-1592 | the clipping rectangle lies on the screen and has the same pixels there |
| ScreenPixels.CursorPixel | src/telemidia-links/framebuffer.c:445-466 | black dots of the cursor show its black, white ones its white, and all other pixels are those of the picture |
| ScreenPixels.ShownPixel | src/telemidia-links/framebuffer.c:468-499 | the same of the pixels on the screen, wherever the cursor was drawn |
| ScreenPixels.BlitPixel | src/telemidia-links/framebuffer.c:178-200 | a bitmap has its pixels exactly where rectangle and bitmap are |
| ScreenPixels.FillPixel | src/telemidia-links/framebuffer.c:1471-1484 | a filled area has its colour exactly inside |
| ScreenPixels.ScrollDownPixel | src/telemidia-links/framebuffer.c:1545-1577 | vertical scrolling brings to each pixel of the rectangle the one so many rows above, if that is in the rectangle |
| ScreenPixels.ScrollRightPixel | src/telemidia-links/framebuffer.c:1513-1543 | horizontal scrolling the one so many columns to the left |
| Dither.RowBounds | src/telemidia-links/dither.c:178-230 | in a row of any width every error and every carry lies in [-16m-1, 16m] and every part handed on in [-m, m], if the table's entries 0 and 65535 are exact and none is off by more than 16m |
| Dither.DregsKept | src/telemidia-links/dither.c:194-258 | what is handed down lies in [-9m, 9m] again |
| Dither.ImageBounds | src/telemidia-links/dither.c:260-292 | for images of any height the dregs stay in [-9m, 9m], and the light lost is at most 11m+8 a row |
| Dither.ImageErrors | src/telemidia-links/dither.c:260-292 | in every row of an image of any size every error and carry lies in [-16m-1, 16m], every part in [-m, m] and every dreg in [-9m, 9m] |
| Dither.RowConserves | src/telemidia-links/dither.c:194-258 | inputs and old dregs of a row are the light shown, the new dregs and the exact losses at its two edges |
| Dither.ImageConserves | src/telemidia-links/dither.c:260-292 | the same over any number of rows |
| Dither.Strips | src/telemidia-links/dither.c:819-834 | for two or more columns, consecutive strips with the dregs handed on give the whole image |
| Dither.ColumnStrips | src/telemidia-links/dither.c:274-280 | for one column a cut goes unnoticed, whatever follows, if and only if the strip above left no error |
| Dither.ColumnBounds | src/telemidia-links/dither.c:274-280 | the error of a column stays in range |
| Diffusion.RowDiffused | src/telemidia-links/dither.c:178-258 | a row is dithered after Floyd and Steinberg: each pixel shows the table's entry nearest to its value in range, and of what the entry misses one, three and five rounded sixteenths go to the row below and the rest to the right |
| Diffusion.DiffusedUniquely | src/telemidia-links/dither.c:178-258 | nothing else satisfies these equations |
| Diffusion.SharesRounded | src/telemidia-links/dither.c:194-214 | a sixteenth is the nearest one, the part that goes to the right is within 4.5 of seven of them, and the four parts are the whole error |
| Diffusion.ImageDiffused | src/telemidia-links/dither.c:260-292 | every row of an image is dithered so with what the row above leaves |
| Diffusion.ColumnShows | src/telemidia-links/dither.c:274-280 | in a column each pixel shows the entry nearest to all the light that has come in and was not yet shown |
| Diffusion.ColumnConserves | src/telemidia-links/dither.c:274-280 | what a column leaves is the light that came in and was not shown |
| Dither.Ditherer.DitherRow | src/telemidia-links/dither.c:283-289 | output and dregs of a row, in place, are the ones of the row's equations, which are those of `Diffusion.FloydSteinberg` and no others |
| Dither.Ditherer.DitherFn | src/telemidia-links/dither.c:260-292 | no columns: nothing; one: dregs untouched; more: all rows in turn |
| Dither.Ditherer.DitherTwoStrips | src/telemidia-links/dither.c:819-834 | starting and restarting give what dithering at once gives |
| Scaler.Shrink | src/telemidia-links/dip.c:440-489 | the accumulating walk computes, for every output, the area formula over all inputs, which is the mean of the parts it covers (`Sampling.ShrunkIsMean`) |
| Scaler.NextMeeting | src/telemidia-links/dip.c:697-712 | the walk goes on to the next input, output or both, and no position passes ix*ox |
| Scaler.Enlarge | src/telemidia-links/dip.c:324-375 | the walk computes linear interpolation (`Sampling.EnlargedIsLine`); a single line is copied |
| Scaler.PositionsWithin | src/telemidia-links/dip.c:354-369 | nor does one when enlarging |
| Scaler.ScaleGray | src/telemidia-links/dip.c:782-801 | both directions, in the order that keeps the picture between them small, for every size including empty ones; what each pixel then is stands in `Sampling.ScaledPixel` |
| Resample.WeightsSum | src/telemidia-links/dip.c:463-483 | the parts an output takes of all inputs add up to the divisor |
| Resample.OverlapCut | src/telemidia-links/dip.c:466-472 | the shared stretch of input and output is the difference of two cuts |
| Resample.TwoNeighbours | src/telemidia-links/dip.c:354-358 | only the two inputs around an output count, with weights that add up to the divisor |
| Resample.EnlargeEnds | src/telemidia-links/dip.c:348-369 | the first and last samples are exact |
| Resample.EnlargeExact | src/telemidia-links/dip.c:354-365 | so is every output that stands on an input |
| Resample.ShrinkBounds | src/telemidia-links/dip.c:440-489 | no output leaves the range of the inputs |
| Resample.ScaledBounds | src/telemidia-links/dip.c:668-719 | nor when enlarging |
| Scaler.ScaledWithin | src/telemidia-links/dip.c:782-801 | a scaled picture has no pixel darker or brighter than it had, so grey values stay bytes |
| Sampling.ShrunkIsMean | src/telemidia-links/dip.c:440-489 | a shrunk sample is the mean, rounded to the nearest, of the parts from k*ix to (k+1)*ix when every input is cut into as many parts as there are outputs |
| Sampling.ShrunkWithin | src/telemidia-links/dip.c:440-489 | it lies within the range of the inputs that share something with it |
| Sampling.EnlargedIsLine | src/telemidia-links/dip.c:324-375 | an enlarged sample is where the line between its two neighbours passes, rounded to the nearest |
| Sampling.EnlargedBetween | src/telemidia-links/dip.c:324-375 | it lies between these two |
| Sampling.EndsKept | src/telemidia-links/dip.c:324-375 | the same size is the identity, and the end samples of an enlargement are the first and the last input, in this order |
| Sampling.ScaledPixel | src/telemidia-links/dip.c:782-801 | each pixel of a scaled picture is the sample of its row of samples of the columns, or of its column of samples of the rows, by which is smaller |
| Sampling.SizeKept | src/telemidia-links/dip.c:782-801 | a picture that keeps a size is scaled along the other direction only, and one that keeps both is unchanged |
| Sampling.NothingScaled | src/telemidia-links/dip.c:787-793 | a picture without pixels becomes black at any size |
| Glob.SimpleGlobMatch | src/telemidia-links/block.c:364-378 | true exactly when the string matches the pattern under the recursive meaning of `*` and `?` |
| Glob.FindFirstMatch | src/telemidia-links/block.c:349-362 | the leftmost place where the segment fits, or none |
| Glob.LeftmostSuffices | src/telemidia-links/block.c:369-377 | placing a segment leftmost never loses a match |
| Glob.LastSegment | src/telemidia-links/block.c:373-375 | the last segment has to fit the very end |
| Glob.IsUrlBlocked | src/telemidia-links/block.c:381-392 | blocked exactly when some pattern matches |
| Glob.MatchesDivided | src/telemidia-links/block.c:349-378 | a string matches exactly if it can be divided so that each `*` stands for any piece, each `?` for one character and every other character for itself |
| Frames.ParseFrameWidths | src/telemidia-links/html.c:2277-2337 | with any room at all the cells are non-negative and fill it exactly, none is empty if there is room for all, and they follow the proportional target, the rounding units going to the leftmost cells with a weight; without room none is positive |
| Frames.FillsExactly | src/telemidia-links/html.c:2277-2337 | the cells fill the room exactly if, and only if, there is room |
| Frames.Correct | src/telemidia-links/html.c:2292-2300 | the correction loop ends, and leaves an error only when no cell can shrink |
| Frames.SharesNearTotal | src/telemidia-links/html.c:2286-2291 | the proportional shares miss the total by less than one unit per positive weight |
| Frames.FillEmpty | src/telemidia-links/html.c:2330-2336 | empty cells get a unit from the widest, keeping the sum |
| Frames.WidestCanSpare | src/telemidia-links/html.c:2330-2336 | while the sum allows it the widest cell can spare one |
| FrameShares.WantedMeans | src/telemidia-links/html.c:2262-2267 | a percentage of the window is rounded down, pixels to the nearest column, and a weight is at least one, all numbers counting up to 10000 |
| FrameShares.WindowFilled | src/telemidia-links/html.c:2277-2337 | cells and the borders between them are exactly the window |
| FrameShares.ShareOfRoom | src/telemidia-links/html.c:2280-2300 | where nothing is left for relative cells and every share is at least one, every cell has its share of the room by what was asked for, up to one unit |
| FrameShares.ShareOfRest | src/telemidia-links/html.c:2301-2328 | else widths asked for are granted, zeros become one, and relative cells get one and the share of the rest that their weight has in all weights, up to one unit |
| FrameInts.FitsExactly | src/telemidia-links/html.c:2265-2313 | for every length of a list, window and mode: all lists of that length keep the products with percentages, cells and weights and the sums in 32 bits if, and only if, the sum of the widest cells and the widest cell times the room, of either sign, do |
| FrameInts.EveryListFits | src/telemidia-links/html.c:2265-2313 | then every list stays in range, whatever it asks for |
| FrameInts.WidestList | src/telemidia-links/html.c:2265-2313 | else the list of the widest cells does not |
| FrameInts.GraphicsWindow | src/telemidia-links/html.c:2265-2313 | in graphics mode, from 100 pixels on, this means a window up to 4634 wide and 100 times the window times the length below 2^31 |
| Utf8.RoundTrip | src/telemidia-links/charsets.c:164-193 | get_utf_8 gives back every value below 2^31 from its code and uses exactly that code, whatever follows |
| Utf8.DecodesExactly | src/telemidia-links/charsets.c:309-327 | a value is read in the length of its code if, and only if, its code stands there |
| Utf8.PrefixFree | src/telemidia-links/charsets.c:164-193 | no code is the beginning of another |
| Utf8.Shortest | src/telemidia-links/charsets.c:164-193 | the code of a value is the shortest of its forms |
| Utf8.GetUtf8 | src/telemidia-links/charsets.c:309-327 | the loop computes the value and the bytes used, also for malformed and cut-off text |
| Utf8.OverlongRead | src/telemidia-links/charsets.c:309-327 | every value has its longer forms, up to six bytes, and each is read as the value (documented nowhere) |
| Utf8.FormsRead | src/telemidia-links/charsets.c:309-327 | a value is read with n continuation bytes if, and only if, its form with n continuation bytes stands there |
| Utf8.ValueRead | src/telemidia-links/charsets.c:309-327 | for every number of bytes: the value is the first byte's part and six bits of each other byte, the highest first (section 2 of RFC 2279); a byte that cannot be first is read as 0 |
| Utf8.BrokenRead | src/telemidia-links/charsets.c:309-327 | where a continuation byte is missing the value is 0 and reading stops in front of what is there instead |
| Translation.FillShows | src/telemidia-links/charsets.c:195-220 | no sequence of additions reaches either bad-encoding branch, and afterwards each character's path leads to the first string added for it |
| Translation.AddKeeps | src/telemidia-links/charsets.c:198-219 | adding one character leaves the paths of all others alone |
| Translation.TextConverted | src/telemidia-links/charsets.c:442-494 | a text of mapped characters becomes their strings, one after the other |
| Translation.TableConverts | src/telemidia-links/charsets.c:195-220 | the two together, from an empty table and any additions |
| Translation.FirstOfAllIs | src/telemidia-links/charsets.c:219-219 | what a table maps a character to is its first mapping, and it maps no other and no ASCII character |
| Translation.ConvertString | src/telemidia-links/charsets.c:430-494 | the converter computes the converted text, codes cut off at the end being copied and an ASCII byte inside a code being shown by its own string |
| Translation.CodeBroken | src/telemidia-links/charsets.c:457-467 | whatever the table was filled with, an ASCII byte behind a lead byte is shown by its own string: NUL by nothing, bytes 23 and 31 by an escape |
| Translation.StarShown | src/telemidia-links/charsets.c:457-467 | a character that is not mapped shows as a star for as many bytes as lead to nothing |
| Translation.CodeCutOff | src/telemidia-links/charsets.c:457-467 | of a code that the text ends in, the first byte is copied |
| DnsLog.RunSound | src/telemidia-links/dns.c:147-279 | whatever requests, ends, callbacks and kills happen in whatever order: first come, first started; every query started is running, finishing, called back or dropped, and only one of these; a lookup has no place for the address exactly if its query was killed while it waited |
| DnsLog.EveryoneAnswered | src/telemidia-links/dns.c:147-279 | when all is done every request has been called back exactly once, unless it was killed, and never if it was |
| DnsLog.EndedSound | src/telemidia-links/dns.c:200-211 | also when lookups made at once end inside each other |
| DnsLog.KilledStillLookedUp | src/telemidia-links/dns.c:200-208 | over every run, a query killed while it waits is looked up all the same when its turn comes |
| DnsLog.PlaceLost | src/telemidia-links/dns.c:154-160 | over every run, a lookup is made without a place for the address if, and only if, some kill met its query waiting behind another lookup |
| DnsLog.AtOnceWithoutPlace | src/telemidia-links/dns.c:154-160 | this does happen with a lookup made at once because no thread can be started |
| DnsQueue.Dns.FindHostNoCache | src/telemidia-links/dns.c:167-185 | the pointers keep the chain, one lookup is made for the request at once or later and no other, and the queue is never found corrupted |
| DnsQueue.Dns.EndDnsLookup | src/telemidia-links/dns.c:200-211 | exactly the next lookup starts, or the queue becomes empty, through any nesting of immediate ends |
| DnsQueue.Dns.LookupDone | src/telemidia-links/dns.c:128-145 | the end of a lookup that is in flight takes it out of flight and goes on with the next |
| DnsQueue.Dns.OneAtATime | src/telemidia-links/dns.c:147-211 | at most one lookup is in flight, none exactly when dns_queue is empty, and the lookups made are those of the first requests in their order |
| DnsQueue.Dns.FinishQuery | src/telemidia-links/dns.c:212-237 | the innermost ended query is called back unless killed, and freed |
| DnsQueue.Dns.KillDnsRequest | src/telemidia-links/dns.c:270-279 | the query stays in the chain without callback and place |
| Config.TokensJoined | src/telemidia-links/default.c:185-211 | any list of fields, whatever they contain, quoted and joined by spaces, is returned field by field and nothing more |
| Config.TokenQuoted | src/telemidia-links/default.c:501-510 | a quoted field is read back and the tokenizer stops right behind it |
| Config.GetToken | src/telemidia-links/default.c:185-211 | the loop computes the token and where it ends, for every line |
| Config.AddQuotedToStr | src/telemidia-links/default.c:501-510 | the loop appends the quoted field |
| ConfigText.EscapedPieces | src/telemidia-links/default.c:501-510 | a field is written character by character between quotation marks, with a backslash in front of quotation marks and backslashes |
| ConfigText.TokenText | src/telemidia-links/default.c:185-211 | any mixture of plain, escaped and quoted characters, behind any blanks, is read as these characters |
| ConfigFile.ConfigRead | src/telemidia-links/default.c:213-273 | of a written file exactly the settings written are read, in order, with either kind of newline |
| ConfigFile.ParseConfigFile | src/telemidia-links/default.c:213-261 | the loops split every file into the same settings |
| ConfigFile.FlagsBack | src/telemidia-links/default.c:662-666 | the packed flag number gives back all sixteen combinations |
| ConfigText.FlagBits | src/telemidia-links/default.c:722-722 | the flag number has one bit for each flag and one for the opposite of the last |
| ConfigText.OldFlags | src/telemidia-links/default.c:662-666 | a number without the last two bits stands for the default of the last flag |
| ConfigText.DecimalIs | src/telemidia-links/default.c:722-724 | numbers are written in decimal, without leading zeros |
| ConfigText.DecimalBack | src/telemidia-links/default.c:639-647 | every number, written in decimal, is read back exactly if it is in the range asked for |
| ConfigFile.AssocBack | src/telemidia-links/default.c:653-670 | the line of an association stands for that association; a system number of more than one digit, which the program does not have, would be an error |
| ConfigFile.ExtBack | src/telemidia-links/default.c:733-734 | the line of an extension stands for that extension |
| ConfigFile.BlockBack | src/telemidia-links/default.c:684-697 | so is a blocked image |
| ConfigLists.FileBack | src/telemidia-links/default.c:213-273 | for lists whose fields have no newline: written and read again, associations and extensions without empty fields are kept, each once and where it stood first, and the last blocked image comes to the front; the lists are unchanged if, and only if, none of this changes them: no empty field, no twins, all blocked images the same (and system numbers of one digit, as the program's are) |
| ConfigLists.Lists.UpdateAssoc | src/telemidia-links/types.c:426-447 | an association without empty fields comes to the front of the list, an equal one being moved instead |
| ConfigLists.Lists.UpdateExt | src/telemidia-links/types.c:735-749 | so does an extension |
| ConfigLists.Lists.BlockAddUrl | src/telemidia-links/block.c:313-332 | a blocked image comes in behind the first |
| ConfigLists.Lists.Read | src/telemidia-links/default.c:649-697 | a setting goes to the list of its option, or is an error |
| ConfigLists.LetterCase | src/telemidia-links/default.c:247-247 | an option's name may be written in large or small letters |
| ConfigLists.Lists.ReadFile | src/telemidia-links/default.c:213-261 | a file does to the lists what its settings do one after the other, errors being passed over |
| ConfigLists.UpdatedKept | src/telemidia-links/types.c:426-447 | adding entries from the back of a list leaves the first of each that passes |
| ConfigLists.KeptMembers | src/telemidia-links/types.c:426-447 | exactly the entries without empty fields are kept |
| ConfigLists.KeptInOrder | src/telemidia-links/types.c:426-447 | they are kept in the order in which they stand first |
| ConfigLists.KeptAll | src/telemidia-links/types.c:426-447 | all entries are kept if, and only if, each passes and no two are equal |
| ConfigLists.RotatedMore | src/telemidia-links/block.c:313-332 | inserting blocked images from the back, each behind the first, brings the last to the front |
| ConfigLists.RotatedSame | src/telemidia-links/block.c:313-332 | that changes nothing if, and only if, all of them are the same |
| ConfigLists.ReloadedTwice | src/telemidia-links/default.c:213-273 | associations and extensions that came from a file stay as they are from then on |
| ConfigLists.SameUrlsBlocked | src/telemidia-links/block.c:381-392 | a file that was written and read blocks the same URLs |
| ConfigLists.TwoUrlsSwapped | src/telemidia-links/default.c:684-709 | any two blocked images change places |
| ConfigLists.LoadNumbered | src/telemidia-links/default.c:668-670 | whatever a file contains, the associations kept from it have one-digit system numbers |

## Left out

- Sockets, name resolution, files, threads, the console and all drawing above the framebuffer: they
  appear as parameters (bytes read, lookup outcomes) or not at all.
- GIF headers, colour maps, extension blocks and transparency (states 0 to 5 and 7 to 9 of
  `gif_accept_byte`), and the mode in which rows leave the decoder one by one: bookkeeping around the
  decoder. A colour is one number instead of three bytes.
- GIF streams with an invalid code before the picture is complete: the decoder is only shown to stay
  within its table and picture.
- `read_code` is a number to which a byte is added above the bits collected; in the source it is an `or`
  on disjoint bits.
- Fragments and cache entries are values and objects in a sequence, not nodes of an intrusive list, so
  aliasing of list pointers is not modelled; offsets and sizes are unbounded, with the source's overflow
  checks as the assumption that they do not fire.
- CacheCollector.Collector.ShrinkFileCache: works on records of size and lock instead of whole entries,
  because only those decide.
- Bodies with a length or without any (`http.c`, lines 463-480): a single subtraction.
- The memory behind the read buffer, which `strtol` reads past a blank line, is a parameter of every read;
  that moving the buffer leaves some of its old bytes there is not modelled.
- Dither is about one colour channel with an abstract table; the packing of three channels into a pixel
  and the gamma tables are not modelled.
- Scaler covers the grey versions; the colour versions repeat them three times. Integers are unbounded:
  positions are at most ix*ox, so the walk is the modelled one if that product fits an `int`, as it must
  for the source's own total; accumulators and the comparison in `scale_gray` are not bounded here.
- Translation.Add: the table is a value with tables inside it, not memory changed in place, and codepage
  tables and entities are not modelled: `&` is copied.
- The cache of addresses beside the lookup queue, its time-outs and failed allocations: list look-ups
  that do not touch the queue.
- The parsing of frame lists into numbers (`html.c`, lines 2258-2274), where `strtoul` reads the numbers.
- FrameInts.FitsExactly: covers windows that are not negative and a unit of at least one, and the sums and
  products it names, not the running remainders between them.
- Options other than associations, extensions and blocked images; the editor of the lists. Lists are
  sequences, not linked nodes.
- Virtual terminal switching, horizontal and vertical lines, and `fb_draw_bitmaps` of the framebuffer:
  variations of filling and drawing. Pixels are numbers instead of one to four bytes.
