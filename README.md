# D3pixelbot core, modelled in Dafny

D3pixelbot mirrors an online pixel canvas such as pixelcanvas.io. It keeps a sparse map of
square chunks (tiles). It records every change of the canvas to a `.pixrec` file and can
replay those files later. This project models the sequential core of the program and proves
properties of that model:

- integer floor and ceiling division, built from Go's truncating `/` and `%`, and the
  pixel-to-chunk grid maths of both revisions (`coordinates.go`, `Modules/coordinates.go`);
- the chunk state machine: the flags Valid and Downloading, the queue of pixels drawn during
  a download, the query timer (`chunk.go`), and its earlier Valid-only revision
  (`Modules/chunk.go`);
- the canvas: the chunk map, row-major chunk lookup, pixel and rectangle operations, and the
  event log sent to listeners (`canvas.go`, `Modules/canvas.go`);
- the recording format: the writer's short-name sanitiser, the header and record encoders and
  its Closed flag (`canvasdiskwriter.go`); the reader's header and record decoders, the choice
  of a recording, the one-slot seek buffer, the replay loop's gating rule and the directory
  listing (`canvasdiskreader.go`);
- the pixelcanvas.io wire formats: the 7-byte 0xC1 pixel packet, bigchunk rounding and the
  unpacking of the nibble-packed bigchunk payload (`pixelcanvas.io.go`);
- the reference-counting singleton (`refcountingsingleton.go`);
- the image helpers: palette and image comparison, copying, and the RGBA to BGRA conversion
  (`utility.go`).

Layout. There is one module per Go file, plus a few support modules:

- `Results`: Option, Result and the error kinds.
- `Arith` and `Bytes`: multiplication facts and the little-endian and big-endian field encodings.
- `Geometry`: Go's `image.Point` and `image.Rectangle`.
- `Colors`: 16-bit colours and the nearest palette index.
- `Images`: the three image kinds over `(rect, stride, pix)`.

State that the Go code updates in place is a class. These are `Chunks.Chunk`,
`LegacyChunks.Chunk`, `Canvases.Canvas`, `LegacyCanvases.Canvas`, `DiskWriters.DiskWriter`,
`DiskReaders.DiskReader` and `RefCounting.RefCountingSingleton`. Each method is proved
against a pure step function of the old state, and the lemmas are stated about those step
functions.

Conventions:

- Time is an integer number of nanoseconds, passed in wherever the code reads the clock.
- A Go panic (nil dereference, index out of range, closing a closed channel) is
  `Err(Fault)`.
- Go's conversions to `int32`, `uint16`, `uint32` and `int64` keep the value modulo 2^n.

Where files of different revisions call each other with mismatched signatures, the model
adapts the call:

- `canvas.go` and `pixelcanvas.io.go` call `getChunkCoord`, `getOuterChunkRect`,
  `getInnerChunkRect` and `getPixelRectangle` without an origin. The model uses origin (0,0).
- `canvas.go:154` passes a palette to `newChunk`, which takes only a rectangle in `chunk.go`
  (`chunk.go:51`). It reads the clock itself (`chunk.go:58`); the model passes the current time
  in as `now`.
- `canvas.go:274` calls `getImageCopy` without its argument. The model reads it as
  `getImageCopy(true)`, as the comment at `canvas.go:263` describes: a chunk whose copy fails
  (an invalid chunk, or one that only holds its rectangle) is skipped, so its pixels keep
  palette colour 0.
- The disk writer's handlers do not match the `canvasListener` interface
  (`canvas.go:51-56`). `handleSetPixel` (`canvasdiskwriter.go:111`) takes a `color.Color`
  rather than a palette index. `handleSetImage` (`canvasdiskwriter.go:224`) takes an
  `image.Image` and a valid flag rather than an `*image.Paletted`. The model takes the
  writer's own signatures.
- `Modules/canvas.go` calls `getChunkCoord`, `getOuterChunkRect` and `getInnerChunkRect`.
  These are `Modules/coordinates.go`'s `toChunkCoord`, `toOuterChunkRect` and
  `toInnerChunkRect`.
- The image that `chunk.go`'s `setImage` returns is an optional value in the SetImage event.

## Model

A function that defines an operation and whose own contract says little (`DiskReaders.ParseHeader`, `DiskReaders.Ext`, `DiskReaders.ScanFiles`, `DiskReaders.StepAsWritten`, `DiskWriters.Sanitize`, `Utility.DivideFloor`, `Utility.DivideCeil`, the `Chunks` and `LegacyChunks` step functions) has no row of its own: it is mapped through the lemmas and methods whose rows state it.

| member | source | states |
|---|---|---|
| Utility.GoDivRem | utility.go:63-82 | Go's truncating quotient and remainder: a == b·q + r, abs(r) < abs(b), and r is zero or has the sign of a |
| Utility.DivideFloorIsFloor | utility.go:63-71 | divideFloor(a, b) is the floor of a/b: q·b ≤ a < (q+1)·b for b > 0, mirrored for b < 0 |
| Utility.DivideCeilIsCeil | utility.go:74-82 | divideCeil(a, b) is the ceiling of a/b: (q-1)·b < a ≤ q·b for b > 0, mirrored for b < 0 |
| Utility.QuotientsUnique | utility.go:63-82 | those characterisations admit only one floor and one ceiling quotient |
| Utility.FloorIsNegatedCeil | utility.go:63-82 | divideFloor(a, b) == -divideCeil(-a, b) |
| Utility.NegatedCeilIsFloor | utility.go:63-82 | negating a ceiling quotient of -a gives a floor quotient of a |
| Utility.CeilMinusFloor | utility.go:63-82 | divideCeil - divideFloor is 0 when b divides a and 1 otherwise |
| Utility.FloorRow | utility.go:63-71 | a value that satisfies the floor characterisation is what divideFloor returns |
| Utility.CeilRow | utility.go:74-82 | a value that satisfies the ceiling characterisation is what divideCeil returns |
| Utility.DivideFloorTablePositive | utility_test.go:25-39 | the 15 rows of the divideFloor table with a positive divisor hold |
| Utility.DivideFloorTableNegative | utility_test.go:40-54 | the 15 rows of the divideFloor table with a negative divisor hold |
| Utility.DivideCeilTablePositive | utility_test.go:68-82 | the 15 rows of the divideCeil table with a positive divisor hold |
| Utility.DivideCeilTableNegative | utility_test.go:83-97 | the 15 rows of the divideCeil table with a negative divisor hold |
| Utility.PaletteEqualFrom | utility.go:90-98 | the comparison loop from entry k on is true iff the remaining entries are equal |
| Utility.IsPaletteEqual | utility.go:85-99 | isPaletteEqual is true iff the lengths agree and every entry agrees |
| Utility.PaletteEqualityIsEquivalence | utility.go:85-99 | isPaletteEqual is reflexive and symmetric |
| Utility.RowsEqualFrom | utility.go:201-225 | the row loop from row y on is true iff every later row of a equals the same row of b |
| Utility.CompareImages | utility.go:186-231 | panics (`Err(Fault)`) exactly when the kinds, rectangles (under Eq) and palettes match, the rectangles are empty, and the row loop's start in b's buffer passes its end; otherwise true iff those match and every row agrees over its Dx pixels, so stride padding is ignored |
| Utility.CompareImagesSameRect | utility.go:186-231 | images over the same rectangle never make compareImages panic |
| Utility.CompareEmptyShapesPanics | utility.go:186-220 | two empty paletted images over Rect(0,0,0,2) and Rect(0,0,1,0) make compareImages panic |
| Utility.CompareImagesReflexive | utility.go:186-231 | every RGBA or paletted image compares equal to itself, without a panic |
| Utility.CopyBytes | utility.go:140-142 | Go's copy: the target range receives the source bytes and nothing else of the target changes |
| Utility.CopyImage | utility.go:102-126 | an RGBA or paletted image is returned unchanged (rectangle, stride, bytes, palette); any other image is an IncompatibleImage error |
| Utility.RowsRow | utility.go:147-156 | row y of the packed rows sits at offset y·RowWidth |
| Utility.CopyRow | utility.go:147-156 | one turn of the row loop writes row iy behind the rows before it and leaves the rest of the buffer alone |
| Utility.ReducedImage | utility.go:130-162 | the buffer filled row by row is an image with stride RowWidth whose row y is the source's row y |
| Utility.CopyImageReduced | utility.go:130-162 | with the buffer sized Dy rows: unsupported kinds are IncompatibleImage; otherwise the copy has the source's rectangle and palette, stride Dx·4 or Dx, and every row of the source |
| Utility.ReducedCopyCompares | utility.go:130-231 | the reduced copy compares equal to its source under compareImages |
| Utility.CopyImageReducedAsWritten | utility.go:130-162 | as written, the buffer holds Dx rows: the copy panics exactly when rows are non-empty and Dy > Dx; otherwise it holds the first rows of the source |
| Utility.SwapRBGroup | utility.go:243-245 | group x of the swapped bytes is group x of the source with bytes 0 and 2 exchanged |
| Utility.SwapGroup | utility.go:244 | exchanges bytes i and i+2 of the array and nothing else |
| Utility.SwapRBInPlace | utility.go:243-245 | the swap loop turns the given slice of the array from RGBA into BGRA order and leaves the rest alone |
| Utility.SwapRowInto | utility.go:241-246 | output row iy is source row iy with red and blue exchanged, and the rows before it are kept |
| Utility.PutPixel | utility.go:255-263 | one pixel of the default branch writes the high bytes of blue, green, red and alpha behind what was written |
| Utility.ColorsDefinedRows | utility.go:252-265 | every pixel of the image has a colour iff every row has one at each of its pixels |
| Utility.ColorRowInto | utility.go:254-264 | the default branch writes each pixel's BGRA bytes of row y in order, and stops iff some pixel of the row has no colour |
| Utility.SwappedRowsInto | utility.go:238-248 | the RGBA branch writes every row of the image, swapped |
| Utility.ColorRowsInto | utility.go:249-267 | the default branch writes every pixel's colour, row by row, and stops iff some pixel has no colour |
| Utility.ImageToBGRAArray | utility.go:234-270 | imageToBGRAArray returns the BGRA bytes of the image; the default branch panics (Fault) iff some pixel has no colour |
| Utility.BGRALength | utility.go:234-270 | the output has Dx·Dy·4 bytes |
| Utility.RGBAPixelSwapped | utility.go:238-248 | for an RGBA image, the output bytes of pixel k are the source bytes of that pixel with bytes 0 and 2 exchanged |
| Utility.BGRAGroup | utility.go:238-248 | the same, located by row and column in both buffers |
| Utility.RGBAAgreesWithColors | utility.go:234-270 | for an RGBA image, the byte-swapping branch returns exactly what the colour-by-colour branch would |
| Colors.Expand | utility.go:255-262 | the 16-bit channel of an 8-bit channel v is v·257: its high and low bytes are both v |
| Colors.QuantizeKeeps8Bit | utility.go:255-262 | a colour made of 8-bit channels survives cutting to 8 bits and expanding again |
| Colors.NearestIndex | canvas.go:213-215 | the nearest palette index is in the palette; an empty palette gives 0 |
| Colors.NearestIndexIsNearest | canvas.go:213-215 | the chosen entry is no farther from the colour than any entry, and strictly nearer than every earlier entry |
| Colors.SqDiff | canvas.go:213-215 | the shifted squared difference of two 16-bit channels is at most 0xFFFF²/4, and zero iff they differ by at most one |
| Colors.Distance | canvas.go:213-215 | the sum of the four channel terms stays below 2^32 - 1, the initial best sum, so it needs no wrap-around and the first entry is always taken |
| Colors.CloseEqual8 | canvas.go:213-215 | two 8-bit colours within one unit per channel are equal |
| Colors.NearestIndexExact | canvas.go:213-215 | a colour in the palette is matched at or before any index that holds it, by an entry within one unit per channel, which is the colour itself when the palette is 8-bit |
| Colors.NearestIndexInexact | canvas.go:213-215 | in a palette that is not 8-bit an earlier entry one unit away is chosen ahead of the colour itself |
| Geometry.Canon | coordinates.go:46 | Canon gives a canonical rectangle |
| Geometry.CanonIdempotent | coordinates.go:46 | Canon is idempotent and leaves canonical rectangles unchanged |
| Images.NewRGBA | chunk.go:187 | a zeroed RGBA image with the rectangle, stride 4·Dx and Dx·Dy·4 bytes |
| Images.NewPaletted | Modules/chunk.go:32 | a zeroed paletted image with the rectangle, the palette, stride Dx and Dx·Dy bytes |
| Images.SetIndexThenIndexAt | Modules/chunk.go:76 | a stored colour index reads back at its pixel, and every other pixel keeps its index |
| Images.OffsetDistinct | Modules/chunk.go:76 | distinct pixels of a well-formed image use disjoint bytes |
| Images.SetColorAt | chunk.go:102-106 | Set changes the colour of its own pixel to the stored form of the colour and no other pixel's colour |
| Images.DrawRGBAAt | chunk.go:187-188 | drawing onto a new RGBA image leaves every pixel of the rectangle with the source colour, cut to 8 bits |
| Images.DrawPalettedAt | Modules/chunk.go:103 | drawing onto a new paletted image stores at every pixel the nearest palette index of the source colour |
| Images.AtIsPaletteEntry | chunk.go:72 | a paletted image shows the palette entry of the stored index, and a fault if that index is not in the palette |
| Images.DrawCopies | chunk.go:171-188 | redrawing an RGBA image or a rectangle onto a fresh image of its kind reproduces every pixel's colour; a paletted image redrawn into its own palette keeps each colour to within one unit per channel, and unchanged when the palette is 8-bit |
| Images.PixelNumber | utility.go:147-156 | the row-major number of a pixel of a rectangle lies below Dx·Dy and leads back to the pixel |
| Coordinates.GetChunkCoord | coordinates.go:34-39 | each axis of the shifted pixel is floor-divided by the chunk size |
| Coordinates.GetOuterChunkRect | coordinates.go:45-61 | the canonical, shifted rectangle has its minimum floor-divided and its maximum ceiling-divided |
| Coordinates.GetInnerChunkRect | coordinates.go:69-92 | the minimum is the ceiling quotient of the shifted minimum; the maximum is the floor quotient of the shifted maximum, raised to the minimum where it falls below it |
| Coordinates.GetPixelRectangle | coordinates.go:97-106 | the canonical chunk rectangle scaled by the chunk size, less the origin; canonical for positive sizes |
| Coordinates.GetPixelSize | coordinates.go:109-114 | the chunk size multiplied component-wise by the pixel size |
| Coordinates.ChunkContainsPixel | coordinates.go:34-39 | the pixel lies in the pixel rectangle of the chunk getChunkCoord returns |
| Coordinates.OriginIsShift | coordinates.go:34-92 | each conversion with an origin equals the conversion, with origin (0,0), of the input shifted by the origin |
| Coordinates.OuterCovers | coordinates.go:45-106 | the outer chunk rectangle, back in pixels, contains the canonical input |
| Coordinates.InnerInside | coordinates.go:69-106 | the inner chunk rectangle, back in pixels, lies inside the canonical input or has no area |
| Coordinates.CornerOrderIrrelevant | coordinates.go:46-70 | swapping the corners of a rectangle changes neither conversion |
| Coordinates.ChunkRectRoundTrip | coordinates.go:45-106 | a canonical chunk rectangle converted to pixels and back (outer or inner) is itself |
| Coordinates.PixelSizeIsExtent | coordinates.go:97-114 | getPixelSize is the pixel extent of a chunk rectangle of that size |
| LegacyCoordinates.ToChunkCoord | Modules/coordinates.go:14-19 | each axis of the pixel is floor-divided by the chunk size |
| LegacyCoordinates.ToOuterChunkRect | Modules/coordinates.go:23-39 | floor of the canonical minimum, ceiling of the canonical maximum |
| LegacyCoordinates.ToInnerChunkRect | Modules/coordinates.go:45-68 | the minimum is the ceiling quotient of the minimum; the maximum is the floor quotient of the maximum, raised to the minimum where it falls below it |
| LegacyCoordinates.AgreesWithOriginZero | Modules/coordinates.go:14-68 | each of the three equals its coordinates.go counterpart with origin (0,0) |
| LegacyCoordinates.ChunkContainsPixel | Modules/coordinates.go:14-19 | the pixel lies inside the chunk toChunkCoord returns |
| LegacyCoordinates.OuterCovers | Modules/coordinates.go:23-39 | toOuterChunkRect, back in pixels, contains the canonical input |
| LegacyCoordinates.InnerInside | Modules/coordinates.go:45-68 | toInnerChunkRect, back in pixels, lies inside the canonical input or has no area |
| Chunks.NewChunkState | chunk.go:51-62 | a new chunk has the canonical rectangle, is neither valid nor downloading, has an empty queue, and keeps the invariant |
| Chunks.PixelAt | chunk.go:64-73 | getPixel is OutOfBounds exactly off the rectangle; RGBA and rectangle images always give a colour; a fault comes only from a paletted image whose stored index is outside its non-empty palette |
| Chunks.PixelIndexAt | chunk.go:75-89 | getPixelIndex succeeds exactly on the rectangle of a paletted image; otherwise it is NotPaletted or OutOfBounds; the index it gives picks the colour getPixel shows |
| Chunks.StepsKeepInv | chunk.go:46-316 | setPixel, setPixelIndex, invalidateImage, revalidate, signalDownload and getQueryState keep the invariant, including that Valid and Downloading are never both set |
| Chunks.SetImageKeepsInv | chunk.go:159-224 | setImage keeps the invariant |
| Chunks.SignalDownloadOnce | chunk.go:273-285 | signalDownload returns true iff the chunk is neither valid nor downloading; then it empties the queue and sets Downloading; otherwise nothing changes; a second call returns false |
| Chunks.RevalidateInvalidateDownload | chunk.go:245-266 | revalidate leaves the chunk valid, not downloading and with an empty queue, so no download starts; invalidateImage of a chunk that is not downloading lets the next signalDownload start one |
| Chunks.SetPixelIdle | chunk.go:91-121 | setPixel on an invalid chunk that is not downloading changes nothing |
| Chunks.SetPixelEffect | chunk.go:91-121 | setPixel inside the rectangle writes the image iff Valid and queues the pixel iff Downloading; the flags, rectangle and query time stay |
| Chunks.SetPixelIndexEffect | chunk.go:123-150 | a successful setPixelIndex stores the index whatever Valid is, queues the palette colour iff Downloading, and keeps the flags |
| Chunks.SetImageRejects | chunk.go:163-168 | setImage fails with NotCovered when the source does not cover the chunk (checked first), with NotDownloading otherwise when no download is on; a failure changes nothing |
| Chunks.OnlyPalettedFaults | chunk.go:171-200 | only a paletted source can lack a colour, so only a paletted source can make setImage panic |
| Chunks.ReplayAt | chunk.go:203-212 | replaying the queue leaves each pixel with the colour queued last for it, or as it was |
| Chunks.SetImageResult | chunk.go:170-223 | after setImage the chunk is valid, not downloading, with an empty queue; each pixel shows its last queued colour or else the redrawn source's, which is within one unit per channel of the source's own, and equal to it when the source is not paletted or its palette is 8-bit; no image is returned iff the redrawn copy equals the old image and the queue was empty |
| Chunks.ImageCopyResult | chunk.go:226-240 | getImageCopy succeeds iff the chunk holds a real image and is valid or validity is not asked for, and then returns the image and both flags |
| Chunks.QueryResultCases | chunk.go:299-316 | Delete iff the last query is more than five minutes old; Download iff not Delete and neither valid nor downloading; otherwise Keep; only the query time changes, only to now, and only on Keep with resetTime and not downloading |
| Chunks.StuckDownloadExpires | chunk.go:299-316 | a downloading chunk's query time never refreshes, so it reaches Delete once five minutes pass; a refreshed chunk is not deleted within five minutes |
| Chunks.Chunk.constructor | chunk.go:51-62 | the new object holds newChunk's state |
| Chunks.Chunk.SetPixel | chunk.go:91-121 | the new state is the setPixel step, or the error with no change |
| Chunks.Chunk.SetPixelIndex | chunk.go:123-150 | the new state is the setPixelIndex step, or the error with no change |
| Chunks.Chunk.SetImage | chunk.go:159-224 | the result and new state are those of the setImage step; the queue is replayed pixel by pixel in a loop |
| Chunks.Chunk.GetImageCopy | chunk.go:226-240 | returns the getImageCopy result of the current state, changing nothing |
| Chunks.Chunk.InvalidateImage | chunk.go:245-252 | the new state is the invalidate step |
| Chunks.Chunk.Revalidate | chunk.go:257-266 | the new state is the revalidate step |
| Chunks.Chunk.SignalDownload | chunk.go:273-285 | the result and new state are those of the signalDownload step |
| Chunks.Chunk.GetQueryState | chunk.go:299-316 | the result and new state are those of the query step |
| LegacyChunks.NewChunkState | Modules/chunk.go:28-37 | a new chunk has the canonical rectangle and the palette, is invalid, has an empty queue and an all-zero image |
| LegacyChunks.PixelAt | Modules/chunk.go:39-48 | OutOfBounds exactly off the rectangle; no colour for an empty palette; otherwise the palette entry of the stored index, or a fault when that index is outside the palette |
| LegacyChunks.PixelIndexAt | Modules/chunk.go:50-59 | OutOfBounds exactly off the rectangle; otherwise the stored index, which selects the colour getPixel returns |
| LegacyChunks.StepsKeepInv | Modules/chunk.go:61-142 | setPixelIndex, setPixel and invalidateImage keep the invariant |
| LegacyChunks.SetImageKeepsInv | Modules/chunk.go:95-118 | setImage keeps the invariant, the rectangle and the palette |
| LegacyChunks.SetPixelIndexEffect | Modules/chunk.go:65-87 | off the rectangle an OutOfBounds error; when valid the index is stored and the queue kept; when invalid the index is queued and the image kept |
| LegacyChunks.ReplayIndicesAt | Modules/chunk.go:105-108 | replaying the queue leaves each pixel with the index queued last for it, or as it was |
| LegacyChunks.SetImageEffect | Modules/chunk.go:95-118 | setImage fails with NotCovered when the chunk is not inside the source; it succeeds iff the chunk is inside the source, the source has a colour at every pixel of the chunk and every index the chunk stores is in its palette, and a pixel whose stored index is outside the palette makes it fault; on success the chunk is valid with an empty queue, and each pixel holds its last queued index or else the nearest index of the source colour |
| LegacyChunks.InvalidateDiscards | Modules/chunk.go:134-142 | after invalidateImage a setImage replays none of the writes queued before it |
| LegacyChunks.Chunk.constructor | Modules/chunk.go:28-37 | the new object holds newChunk's state in a fresh buffer |
| LegacyChunks.Chunk.SetPixelIndex | Modules/chunk.go:65-87 | the new state is the setPixelIndex step, or the error with no change, in the same buffer |
| LegacyChunks.Chunk.SetPixel | Modules/chunk.go:61-63 | setPixel is setPixelIndex with the nearest palette index of the colour |
| LegacyChunks.Chunk.Redraw | Modules/chunk.go:95-111 | the draw and replay part of setImage: the new state is the setImage step, in the same buffer, or the step's error (including the fault of a stored index outside the palette) with no change |
| LegacyChunks.Chunk.SetImage | Modules/chunk.go:95-118 | the setImage step, returning an image that shows the new pixels from a buffer of its own |
| LegacyChunks.Chunk.SetImageAsWritten | Modules/chunk.go:113-117 | as written: the returned image shows the new pixels but shares the chunk's buffer |
| LegacyChunks.Chunk.GetImageCopy | Modules/chunk.go:120-129 | getImageCopy as documented: an image showing the chunk's pixels in a fresh buffer |
| LegacyChunks.Chunk.GetImageCopyAsWritten | Modules/chunk.go:120-129 | as written: the returned image shows the chunk's pixels through the chunk's own buffer |
| LegacyChunks.Chunk.InvalidateImage | Modules/chunk.go:134-142 | the new state is the invalidate step |
| LegacyChunks.DrawInto | Modules/chunk.go:103 | drawing pixel by pixel into the buffer gives the bytes of the drawn paletted image |
| LegacyChunks.ReplayInto | Modules/chunk.go:105-108 | the replay loop stores the queued indices into the buffer in order |
| LegacyChunks.SharedCopyChanges | Modules/chunk.go:120-129 | a copy handed out as written changes when the chunk is drawn on afterwards |
| LegacyChunks.FreshCopyKeeps | Modules/chunk.go:120-129 | a copy in a fresh buffer keeps its pixels when the chunk is drawn on afterwards |
| Canvases.ChunkRectHoldsItsPixels | canvas.go:151-158 | the rectangle of chunk c is canonical, is getPixelRectangle of the unit chunk rectangle, and holds exactly the pixels whose chunk is c |
| Canvases.CoordInOuter | coordinates.go:34-61 | a pixel of a rectangle has its chunk inside the outer chunk rectangle |
| Canvases.RowMajorFacts | canvas.go:175-186 | getChunks visits every coordinate of the canonical chunk rectangle once, y outer and x inner, Dx·Dy of them |
| Canvases.RowMajorMember | canvas.go:175-186 | a coordinate is visited iff it lies in the canonical chunk rectangle |
| Canvases.CreatedAt | canvas.go:137-168 | creating keeps every present chunk and adds a fresh chunk exactly for each missing listed coordinate |
| Canvases.FreshFits | canvas.go:151-162 | every chunk created for coordinate c keeps the invariant and has c's rectangle |
| Canvases.PresentMember | canvas.go:176-184 | with ignoreNonexistent, a coordinate is kept iff it is listed and has a chunk |
| Canvases.SetImages | canvas.go:246-255 | the setImage loop keeps the set of chunks and every chunk's rectangle |
| Canvases.SetImagesStops | canvas.go:246-255 | after the first error later chunks change nothing |
| Canvases.SetImagesKeeps | canvas.go:246-255 | chunks off the list are untouched |
| Canvases.SetImagesCount | canvas.go:246-255 | one event per listed chunk without an error, fewer with one |
| Canvases.SetImagesEvent | canvas.go:251-254 | every event sent is a SetImage event |
| Canvases.SetImagesRevalidates | canvas.go:246-255 | without an error every listed chunk ends valid, not downloading, and with an empty queue |
| Canvases.SetImagesKeepsInv | canvas.go:246-255 | every chunk that kept the invariant still keeps it |
| Canvases.SetImagesFits | canvas.go:246-255 | every chunk keeps fitting the grid |
| Canvases.InvalidatedAt | canvas.go:296-298 | invalidating keeps the set of chunks and invalidates exactly the listed ones |
| Canvases.InvalidatedPresent | canvas.go:290-298 | invalidating the listed coordinates is invalidating those of them that exist |
| Canvases.InvalidatedFits | canvas.go:296-298 | the chunks keep fitting the grid |
| Canvases.SignalledAt | canvas.go:342-344 | signalling keeps the set of chunks and signals exactly the listed ones |
| Canvases.SignalledFits | canvas.go:342-344 | the chunks keep fitting the grid |
| Canvases.InvalidateRectEffect | canvas.go:284-301 | after invalidateRect no chunk that holds a pixel of the rectangle is valid, no chunk is created, and chunks outside the outer chunk rectangle are untouched |
| Canvases.SignalDownloadEffect | canvas.go:330-347 | after signalDownload every chunk of the outer rectangle exists and is valid or downloading; each one that was neither is now downloading with an empty queue; the others are untouched |
| Canvases.DrawOntoAt | canvas.go:271-275 | drawing a chunk image onto the copy sets the nearest palette index at its pixels and keeps the others |
| Canvases.LastCover | canvas.go:271-275 | the last image covering a pixel is one of the images and covers it |
| Canvases.ComposeAt | canvas.go:271-275 | each pixel of the composition shows the last image covering it, or the background |
| Canvases.LastCoverChunks | canvas.go:271-275 | among the chunk images only the pixel's own chunk covers it |
| Canvases.ImageCopyAt | canvas.go:263-278 | the copy has the rectangle and the canvas palette; each pixel holds the nearest index of its chunk's colour, or 0 where the chunk is missing, invalid or has no image |
| Canvases.ImageCopyEmptyPalette | canvas.go:271-274 | with an empty canvas palette, a shown chunk under any pixel of the rectangle makes the copy fault, since draw.Over reads the destination's colour |
| Canvases.CoverBlocksEmptyPalette | canvas.go:271-274 | an image covering a pixel of the rectangle cannot be drawn onto a destination without a palette |
| Canvases.InvalidateEach | canvas.go:296-298 | the invalidateRect loop gives the invalidated map |
| Canvases.SignalEach | canvas.go:342-344 | the signalDownload loop gives the signalled map |
| Canvases.SetImageEach | canvas.go:246-255 | the setImage loop gives the folded result |
| Canvases.SetImageAt | canvas.go:246-255 | one turn of the setImage loop extends the fold by one chunk |
| Canvases.UndrawableBlocks | canvas.go:271-275 | one chunk image that cannot be drawn makes the whole list undrawable |
| Canvases.DrawChunk | canvas.go:271-275 | one turn of the getImageCopy loop draws the next chunk image, or faults iff the list is undrawable: a covered pixel without colour in a chunk image, or in a destination without a palette |
| Canvases.ComposeEach | canvas.go:271-275 | the getImageCopy loop gives the composition of the chunk images, or a fault |
| Canvases.Canvas.constructor | canvas.go:75-121 | a new canvas has no chunks, no events and no listeners |
| Canvases.Canvas.Subscribe | canvas.go:123-128 | adds the listener to the set and changes nothing else |
| Canvases.Canvas.Unsubscribe | canvas.go:130-135 | removes the listener from the set and changes nothing else |
| Canvases.Canvas.GetChunk | canvas.go:137-168 | a present chunk is returned with the map unchanged; an absent one is inserted fresh when create is set and is NotFound otherwise |
| Canvases.Canvas.GetChunks | canvas.go:170-189 | the row-major coordinates; with create the missing chunks are made; with ignoreNonexistent the missing ones are skipped; otherwise a missing chunk is NotFound and the map is unchanged |
| Canvases.Canvas.GetRow | canvas.go:175-186 | the inner loop over one row: the coordinates of the row appended, the missing ones made or skipped, or the first missing one reported |
| Canvases.Canvas.GetPixel | canvas.go:191-200 | NotFound iff the pixel's chunk is missing; never OutOfBounds |
| Canvases.Canvas.GetPixelIndex | canvas.go:202-211 | NotFound iff the pixel's chunk is missing; never OutOfBounds |
| Canvases.Canvas.SetPixelIndex | canvas.go:217-232 | the SetPixel event is sent first; a missing chunk is NotFound and never created; otherwise the chunk takes the setPixelIndex step or reports its error |
| Canvases.Canvas.SetPixel | canvas.go:213-215 | setPixelIndex with the nearest palette index of the colour cut to a byte |
| Canvases.Canvas.SetImage | canvas.go:239-258 | over the inner chunk rectangle, made or required to exist; the chunks and the events sent are those of the setImage loop, and earlier events are kept |
| Canvases.Canvas.GetImageCopy | canvas.go:264-278 | returns the composition of the chunk images, changing nothing |
| Canvases.Canvas.InvalidateRect | canvas.go:284-301 | one InvalidateRect event, then the existing chunks of the outer chunk rectangle invalidated |
| Canvases.Canvas.InvalidateAll | canvas.go:307-319 | one InvalidateAll event, then every chunk invalidated |
| Canvases.Canvas.SignalDownload | canvas.go:330-347 | one SignalDownload event, then the chunks of the outer chunk rectangle made and signalled |
| LegacyCanvases.Fresh | Modules/canvas.go:126-135 | a chunk made for coordinate c has c's rectangle and the canvas palette, is invalid and has an empty queue |
| LegacyCanvases.CreatedAt | Modules/canvas.go:112-143 | creating keeps every present chunk and adds a fresh chunk exactly for each missing listed coordinate |
| LegacyCanvases.FreshFits | Modules/canvas.go:126-135 | created chunks fit the grid and carry the palette |
| LegacyCanvases.EntriesAt | Modules/canvas.go:149-159 | entry i of getChunks is the chunk at coordinate i, or nil where there is none |
| LegacyCanvases.EntriesCount | Modules/canvas.go:145-162 | getChunks returns as many entries as the chunk rectangle has coordinates, even with nil entries |
| LegacyCanvases.SetImages | Modules/canvas.go:217-226 | the setImage loop keeps the set of chunks and every rectangle |
| LegacyCanvases.SetImagesStops | Modules/canvas.go:217-226 | after the first error later chunks change nothing |
| LegacyCanvases.SetImagesKeeps | Modules/canvas.go:217-226 | chunks off the list are untouched |
| LegacyCanvases.SetImagesCount | Modules/canvas.go:217-226 | one event per chunk without an error, fewer with one |
| LegacyCanvases.SetImagesRevalidates | Modules/canvas.go:217-226 | without an error every listed chunk ends valid with an empty queue |
| LegacyCanvases.SetImagesShows | Modules/canvas.go:217-226 | without an error event i carries the image chunk i ends with |
| LegacyCanvases.SetImagesLast | Modules/canvas.go:217-226 | the last listed chunk either takes the image or stays as it was |
| LegacyCanvases.SetImagesKeepsInv | Modules/canvas.go:217-226 | every chunk keeps the invariant and its palette |
| LegacyCanvases.SetImagesFits | Modules/canvas.go:217-226 | the chunks keep fitting the grid and the palette |
| LegacyCanvases.InvalidatedAt | Modules/canvas.go:267-269 | invalidating keeps the set of chunks and invalidates exactly the listed ones |
| LegacyCanvases.InvalidateAllEach | Modules/canvas.go:285-287 | the invalidateAll loop invalidates every chunk of the map |
| LegacyCanvases.InvalidateRectEffect | Modules/canvas.go:255-272 | after invalidateRect every coordinate of the outer chunk rectangle has a chunk, which is invalid with an empty queue; chunks outside are untouched |
| LegacyCanvases.LastCoverChunks | Modules/canvas.go:242-246 | among the chunk images only the pixel's own chunk covers it |
| LegacyCanvases.ImageCopyNeedsChunks | Modules/canvas.go:235-249 | a chunk missing under the rectangle makes getImageCopy panic |
| LegacyCanvases.ImageCopyAt | Modules/canvas.go:235-249 | each pixel of the copy is the nearest palette index of the colour its chunk holds there |
| LegacyCanvases.ComposeAtChunks | Modules/canvas.go:235-249 | the composition at a pixel resolves to the pixel's own chunk, or the background |
| LegacyCanvases.AllFound | Modules/canvas.go:145-162 | when every coordinate has a chunk, getChunks has no nil entry |
| LegacyCanvases.SetImageEach | Modules/canvas.go:217-226 | the setImage loop gives the folded result |
| LegacyCanvases.SetImageAt | Modules/canvas.go:217-226 | one turn of the setImage loop extends the fold by one chunk |
| LegacyCanvases.InvalidateEach | Modules/canvas.go:267-269 | the invalidateRect loop gives the invalidated map |
| LegacyCanvases.UndrawableBlocks | Modules/canvas.go:242-246 | one chunk image that cannot be drawn makes the whole list undrawable |
| LegacyCanvases.DrawChunk | Modules/canvas.go:242-246 | one turn of the getImageCopy loop draws the next entry's image, or faults on a nil or undrawable entry |
| LegacyCanvases.ComposeEach | Modules/canvas.go:242-246 | the getImageCopy loop gives the composition, or a fault when an entry is nil or undrawable |
| LegacyCanvases.Canvas.constructor | Modules/canvas.go:54-96 | a new canvas has no chunks, no events and no listeners |
| LegacyCanvases.Canvas.Subscribe | Modules/canvas.go:98-103 | adds the listener to the set and changes nothing else |
| LegacyCanvases.Canvas.Unsubscribe | Modules/canvas.go:105-110 | removes the listener from the set and changes nothing else |
| LegacyCanvases.Canvas.GetChunk | Modules/canvas.go:112-143 | a present chunk is returned with the map unchanged; an absent one is inserted with the canvas palette when create is set and is NotFound otherwise |
| LegacyCanvases.Canvas.GetChunks | Modules/canvas.go:145-162 | one entry per row-major coordinate, nil for a missing one when it is ignored; an error iff a chunk is missing and neither create nor ignore is set |
| LegacyCanvases.Canvas.GetRow | Modules/canvas.go:150-158 | the inner loop over one row: its entries appended, or the first missing chunk reported |
| LegacyCanvases.Canvas.GetCell | Modules/canvas.go:151-157 | one turn of the inner loop: the entry of one coordinate appended, or the missing chunk reported |
| LegacyCanvases.Canvas.GetPixel | Modules/canvas.go:164-173 | NotFound iff the pixel's chunk is missing; never OutOfBounds |
| LegacyCanvases.Canvas.GetPixelIndex | Modules/canvas.go:175-184 | an error iff the pixel's chunk is missing, and then NotFound |
| LegacyCanvases.Canvas.SetPixelIndex | Modules/canvas.go:190-205 | the event is sent first; a missing chunk is NotFound and not created; otherwise the chunk takes the setPixelIndex step, which cannot fail |
| LegacyCanvases.Canvas.SetPixel | Modules/canvas.go:186-188 | setPixelIndex with the nearest palette index cut to a byte |
| LegacyCanvases.Canvas.SetImage | Modules/canvas.go:210-229 | the missing chunks of the inner chunk rectangle are made; the chunks and the events sent are those of the setImage loop |
| LegacyCanvases.Canvas.GetImageCopy | Modules/canvas.go:235-249 | returns the composition of the chunk images or a fault, changing nothing |
| LegacyCanvases.Canvas.InvalidateRect | Modules/canvas.go:255-272 | one event, then the chunks of the outer chunk rectangle made and invalidated |
| LegacyCanvases.Canvas.InvalidateAll | Modules/canvas.go:278-290 | one event, then every chunk invalidated |
| DiskWriters.SanitizeClean | canvasdiskwriter.go:50-51 | the sanitised name holds only `[A-Za-z0-9.-]` and single `_` between them, and is empty iff the input is |
| DiskWriters.SanitizeFixes | canvasdiskwriter.go:50-51 | a name that is already clean is left unchanged |
| DiskWriters.SanitizeIdempotent | canvasdiskwriter.go:50-51 | sanitising twice is sanitising once |
| DiskWriters.SanitizeKeepsKept | canvasdiskwriter.go:50-51 | every allowed character survives in order, and only `_` are added |
| DiskWriters.Header | canvasdiskwriter.go:75-87 | the header is 24 bytes and starts with "PREC" |
| DiskWriters.SetPixelRecord | canvasdiskwriter.go:118-133 | a SetPixel record is 20 bytes, type byte 10 first |
| DiskWriters.RectRecord | canvasdiskwriter.go:148-159 | an InvalidateRect or RevalidateRect record is 25 bytes, its type byte first |
| DiskWriters.InvalidateAllRecord | canvasdiskwriter.go:173-179 | an InvalidateAll record is 9 bytes with type byte 21 first, in field declaration order |
| DiskWriters.SetImageRecord | canvasdiskwriter.go:236-260 | a SetImage record is 25 bytes plus the payload, type byte 30 first |
| DiskWriters.SetImageSizeField | canvasdiskwriter.go:239-257 | the record is its head, the uint32 size field, then exactly the payload; the size field holds the payload length when that fits |
| DiskWriters.DiskWriter.constructor | canvasdiskwriter.go:45-97 | the header is written, the name is sanitised, the writer is open and subscribed, and the canvas is otherwise unchanged |
| DiskWriters.DiskWriter.Emit | canvasdiskwriter.go:112-116 | appends the bytes unless closed; closed is an error that writes nothing |
| DiskWriters.DiskWriter.HandleSetPixel | canvasdiskwriter.go:111-139 | appends the SetPixel record, or errors when closed |
| DiskWriters.DiskWriter.HandleInvalidateRect | canvasdiskwriter.go:141-164 | appends the InvalidateRect record, or errors when closed |
| DiskWriters.DiskWriter.HandleInvalidateAll | canvasdiskwriter.go:166-184 | appends the InvalidateAll record, or errors when closed |
| DiskWriters.DiskWriter.HandleRevalidateRect | canvasdiskwriter.go:186-209 | appends the RevalidateRect record, or errors when closed |
| DiskWriters.DiskWriter.HandleSignalDownload | canvasdiskwriter.go:211-222 | writes nothing; errors when closed |
| DiskWriters.DiskWriter.HandleSetImage | canvasdiskwriter.go:224-262 | appends the SetImage record only for a valid image, or errors when closed |
| DiskWriters.DiskWriter.HandleChunksChange | canvasdiskwriter.go:264-274 | writes nothing; errors when closed |
| DiskWriters.DiskWriter.Close | canvasdiskwriter.go:276-286 | unsubscribes, appends one InvalidateAll record unless already closed, then is closed |
| DiskReaders.HeaderRoundTrip | canvasdiskreader.go:287-315 | a header in the reader's 54-byte layout reads back field for field, whatever follows; a version above 1 is refused |
| DiskReaders.ParseHeaderRefuses | canvasdiskreader.go:287-315 | a short header is a short read; with 54 bytes, wrong magic bytes are a format error, and a version above 1 after good magic is refused |
| DiskReaders.WriterHeaderTooShort | canvasdiskreader.go:287-304 | the writer's 24-byte header alone is a short read for the reader |
| DiskReaders.WriterHeaderCompat | canvasdiskreader.go:287-315 | followed by 30 or more bytes, the writer's header passes the reader's checks with the writer's time and chunk size |
| DiskReaders.DecodeRecord | canvasdiskreader.go:176-267 | each record consumes a non-empty prefix; the time is an int64; fewer than 9 bytes is a short read |
| DiskReaders.SetPixelRoundTrip | canvasdiskreader.go:190-201 | a writer SetPixel record reads back with its time and position and the colour's high bytes, alpha 255 |
| DiskReaders.SetPixelKeepsOpaque8 | canvasdiskreader.go:190-201 | an opaque 8-bit colour survives a SetPixel record unchanged |
| DiskReaders.RectRoundTrip | canvasdiskreader.go:203-226 | InvalidateRect and RevalidateRect records read back as the canonical rectangle with their time |
| DiskReaders.InvalidateAllRoundTrip | canvasdiskreader.go:214-215 | an InvalidateAll record reads back with its time |
| DiskReaders.SetImageLayout | canvasdiskreader.go:228-243 | the reader's SetImage layout is X, Y, a uint32 size and exactly that many payload bytes; fewer is a short read |
| DiskReaders.SetImageMisread | canvasdiskreader.go:228-243 | the writer's SetImage record is misread: the size taken is W + 65536·H, and the payload starts at the writer's size field |
| DiskReaders.DecodeEncoded | canvasdiskreader.go:176-267 | every record of types 10, 20, 21 and 22 that the writer encodes reads back as itself, whatever follows |
| DiskReaders.StreamRoundTrip | canvasdiskreader.go:176-267 | a stream of such records reads back as exactly those records, in order |
| DiskReaders.SelectRecording | canvasdiskreader.go:87-104 | the first recording with start ≤ t < end, or None when no recording covers t |
| DiskReaders.Replay | canvasdiskreader.go:141-188 | the records played are a prefix of the file, and curTime moves forward within the file's end unless the file is left |
| DiskReaders.PlayedUpTo | canvasdiskreader.go:150-188 | without new targets a prefix is played whose records all but the last are at or before curTime; it stops only at a record whose predecessor lies after curTime |
| DiskReaders.ReplayIdle | canvasdiskreader.go:150-188 | with only idle turns the replay is that prefix, curTime stays, and it ends blocked or at the end of the file |
| DiskReaders.ReplayWaits | canvasdiskreader.go:160-172 | a turn with nothing pending while curTime is before the last record's time only waits |
| DiskReaders.ReplayReads | canvasdiskreader.go:175-188 | a turn that reads a record hands it on and continues with the rest of the file |
| DiskReaders.ReplayFile | canvasdiskreader.go:141-268 | the replay loop produces what Replay specifies |
| DiskReaders.ExtIsSuffix | canvasdiskreader.go:343 | a file name has the extension w iff it ends with w |
| DiskReaders.RecordingFilesExt | canvasdiskreader.go:341-347 | exactly the entries with extension ".pixrec" are kept |
| DiskReaders.FileHeader | canvasdiskreader.go:353-372 | a file's header exists iff the file can be read and its header parses |
| DiskReaders.Step | canvasdiskreader.go:352-400 | one file is listed iff no fault happened, it has a header, and that header is accepted |
| DiskReaders.ScanFilesChained | canvasdiskreader.go:388-399 | the recordings listed tile time: each ends where the next starts, and the last ends now |
| DiskReaders.ScanFilesMatching | canvasdiskreader.go:352-400 | a chunk size once set never changes, and the listed recordings are exactly the readable files with that chunk size and origin, in directory order |
| DiskReaders.ScanFilesAdopts | canvasdiskreader.go:374-386 | the first readable header fixes the chunk size and origin; the recordings are that file and the later files matching it |
| DiskReaders.AsWrittenAgrees | canvasdiskreader.go:352-400 | where the loop as written does not panic, it builds the intended list |
| DiskReaders.SkippedFilePanics | canvasdiskreader.go:394-397 | an unreadable recording followed by a readable one makes the loop as written index an empty list, while the corrected loop lists the readable one |
| DiskReaders.FilterRecordingFiles | canvasdiskreader.go:341-347 | the loop keeps the ".pixrec" entries in order |
| DiskReaders.ListOne | canvasdiskreader.go:352-400 | one turn of the listing loop is one corrected step |
| DiskReaders.ListRecordings | canvasdiskreader.go:352-400 | the listing loop builds the corrected list |
| DiskReaders.OpenForReplay | canvasdiskreader.go:110-135 | a file opens for replay iff it can be read, its header parses, and it has the canvas' chunk size and origin |
| DiskReaders.MatchedFilesOpen | canvasdiskreader.go:110-135 | every file the listing matched passes the checks on opening it |
| DiskReaders.DiskReader.constructor | canvasdiskreader.go:56-59 | a new reader has no chunk size, no recordings and an empty open time slot |
| DiskReaders.DiskReader.RefreshRecordings | canvasdiskreader.go:333-403 | an unreadable directory is NotFound; otherwise the corrected listing of its ".pixrec" files, with the chunk size and origin it adopted |
| DiskReaders.DiskReader.SetReplayTime | canvasdiskreader.go:317-330 | the slot then holds exactly t, whatever it held; on a closed channel it panics |
| DiskReaders.DiskReader.TakeTime | canvasdiskreader.go:150-173 | a receive yields the pending time, else the closed channel's end, else nothing, and empties the slot |
| DiskReaders.DiskReader.Close | canvasdiskreader.go:422-425 | the channel is closed; closing it twice panics |
| DiskReaders.NewDiskReader | canvasdiskreader.go:55-73 | fails iff the directory cannot be read or lists no recording; otherwise the start time of the first recording is queued |
| PixelcanvasIO.DecodeMessage | pixelcanvas.io.go:269-291 | a message is a pixel change iff it has 7 bytes and opcode 0xC1 |
| PixelcanvasIO.DecodeEncoded | pixelcanvas.io.go:274-279 | every pixel change decodes from its packet to itself |
| PixelcanvasIO.EncodeDecoded | pixelcanvas.io.go:274-279 | every 7-byte 0xC1 packet is the encoding of what it decodes to |
| PixelcanvasIO.MixedFields | pixelcanvas.io.go:277-279 | the colour, x offset and y offset come back out of the mixed word |
| PixelcanvasIO.SignedFromUnsigned | pixelcanvas.io.go:274-275 | an int16 survives the big-endian field |
| PixelcanvasIO.ChangeInItsChunk | pixelcanvas.io.go:274-284 | the changed pixel lies in the chunk the packet names, and its colour index is in the 16-colour palette |
| PixelcanvasIO.HandleMessage | pixelcanvas.io.go:269-291 | a pixel change sends its event and is then stored or queued by setPixelIndex in the chunk of its position, NotFound when the canvas lacks that chunk; any other message changes nothing |
| PixelcanvasIO.BigchunkRect | pixelcanvas.io.go:124-127 | the bigchunk spans chunks cc-7 to cc+7 on each axis, in pixels |
| PixelcanvasIO.BigchunkHolds | pixelcanvas.io.go:121-127 | the centre is a multiple of 15 on each axis, and the requested chunk lies in the bigchunk |
| PixelcanvasIO.PixOfByte | pixelcanvas.io.go:161-183 | byte k fills an even pixel and its right neighbour, both in the buffer |
| PixelcanvasIO.ByteOfPix | pixelcanvas.io.go:161-183 | every pixel of the buffer belongs to one payload byte |
| PixelcanvasIO.ByteOfAt | pixelcanvas.io.go:164-178 | the loops reach payload byte iy·30720 + ix·2048 + jy·32 + h at chunk (ix, iy), row jy, pair h |
| PixelcanvasIO.PutPair | pixelcanvas.io.go:177-179 | the two SetColorIndex calls place the high nibble at the even pixel and the low nibble at the next |
| PixelcanvasIO.UnpackBigchunk | pixelcanvas.io.go:152-183 | a payload of the wrong length is refused; otherwise a paletted image over the bigchunk with every pixel holding its nibble |
| PixelcanvasIO.PixAt | pixelcanvas.io.go:164-178 | the offset the loops compute for byte i is PixOf(i) |
| PixelcanvasIO.BigchunkIndexAt | pixelcanvas.io.go:161-183 | each pixel of the bigchunk has the colour index its payload byte holds for it |
| RefCounting.GetStep | refcountingsingleton.go:34-47 | with nothing held init is called and what it returns, nil included, is stored with the counter at 1 and handed out; otherwise the held object is handed out and counted; the invariant is kept |
| RefCounting.NilInitReinits | refcountingsingleton.go:34-60 | after init returned nil, nil is stored with the counter at 1, the next get calls init again and counts from 1, and releasing nil panics |
| RefCounting.GetsNil | refcountingsingleton.go:34-47 | with init returning nil, any number of gets leaves nil stored with the counter at 1 |
| RefCounting.ReleaseStep | refcountingsingleton.go:51-70 | releasing another object or releasing with nothing held panics; otherwise the count drops by one, and the object is dropped and true returned exactly at zero |
| RefCounting.GetsCount | refcountingsingleton.go:34-47 | from nothing, n gets with init returning an object hold the first init's object n times |
| RefCounting.GetsHeld | refcountingsingleton.go:38-41 | with an object held, gets never call init and only count |
| RefCounting.ReleasesCount | refcountingsingleton.go:51-70 | releasing as often as got drops the object; fewer releases keep it held |
| RefCounting.ReleaseTooOften | refcountingsingleton.go:55-60 | one release more than gets panics |
| RefCounting.RefCountingSingleton.constructor | refcountingsingleton.go:25-31 | the zero value holds nothing |
| RefCounting.RefCountingSingleton.Get | refcountingsingleton.go:34-47 | the new state and results are those of the get step, nil from init included |
| RefCounting.RefCountingSingleton.Release | refcountingsingleton.go:51-70 | the new state and result are those of the release step; a panic changes nothing |

## Left out

- Goroutines, channels and mutexes are left out. This covers the event broadcasters (canvas.go:86-118, Modules/canvas.go:65-93), the replay goroutine around the loop (canvasdiskreader.go:75-104, 268-284), the ticker's time updates, the download limiter and wait group, and every lock. The event channel is a log, and each operation is one atomic step.
- `canvas.Close` (canvas.go:349-356, Modules/canvas.go:292-299) only closes the broadcaster's channel, so it is not modelled.
- Network I/O is left out: HTTP, the websocket connection, `getWebsocketURL`, `authenticateMe`, `getJSON`, `postJSON`, the whole of Modules/utility.go and Modules/pixelcanvas.io.go. The decoded messages and the received bigchunk payload are parameters.
- The GUI files, main.go, Modules/main.go and connection.go are not part of this model.
- Files and compression are left out: os.Create, os.Open, ReadDir, filepath.Join and gzip. Record streams are decompressed byte sequences. A directory is a list of entries whose content may be missing when the file cannot be read. A recording's file name is the entry name.
- `setListeningRects` (canvasdiskwriter.go:99-109) and the reader's getters (canvasdiskreader.go:405-419) are not modelled.
- The canvas a disk reader creates (canvasdiskreader.go:73) calls a three-argument newCanvas that no file defines, so it is not modelled.
- Handing the replayed records to the canvas (canvasdiskreader.go:190-262) is left out. The model returns them in order.
- Decoding the SetImage payload with `image.Decode` (canvasdiskreader.go:244) is left out; the payload stays raw bytes.
- `imageToRGBArray` (canvasdiskwriter.go:237) is not part of this model. Its output is a parameter of HandleSetImage.
- `subImage` (utility.go:166-175) is a thin wrapper around the library's SubImage, so it is not modelled.
- `signalDownload` of the bigchunk (pixelcanvas.io.go:129) is modelled only by Canvases.Canvas.SignalDownload. The download goroutine around it is not modelled.
- `draw.Draw` with the Over operator is modelled as a plain per-pixel copy, since the sources are opaque.
- `color.Palette.Index` sums each channel's squared difference shifted right by two (Colors.SqDiff). The sum stays below 2^32, so no wrap-around arises.
- The model follows Go 1.17's `image` and `image/draw` packages throughout; the next two lines say where other Go versions differ.
- `draw.Draw` reads a pixel without a colour as a panic, as `Image.At` returning nil does, for the source and, under `draw.Over`, for the destination too (an empty canvas palette). From Go 1.18 on, `draw.Draw`'s generic path reads pixels through `RGBA64At`, which gives a zero colour for an image without a palette, so such an image would not fault there.
- Canvases.ImageCopyOf and LegacyCanvases.ImageCopyOf fault on a rectangle that is not canonical, as `image.NewPaletted` does from Go 1.17 on for any negative width or height. Before Go 1.17 NewPaletted panics only when Dx·Dy is negative, so a rectangle negative on both axes, or negative on one and flat on the other, passes it there; the model does not follow that.
- `cmp.Equal` (chunk.go:177) is structural equality of the image values.
- Utility.CopyImage: images are values, so the fresh buffer is not visible at this level. Buffer aliasing is modelled only in LegacyChunks, where the chunk buffer is an array.
- DiskWriters.Header and the record encoders store each field as Go's conversion to its type (modulo 2^n). The round-trip lemmas require the values to fit.
- DiskReaders.ParseHeader states only that a successful parse fits its fields. Its meaning is carried by DiskReaders.HeaderRoundTrip, DiskReaders.ParseHeaderRefuses and the writer-compatibility lemmas.
- Canvases.Canvas.GetPixel and Canvases.Canvas.GetPixelIndex state only their error cases. The value read is the chunk's PixelAt and PixelIndexAt, whose contracts state it.
- LegacyCanvases.Canvas.GetPixel and LegacyCanvases.Canvas.GetPixelIndex: as above.
- Integer overflow in `divideFloor` (MinInt64 / -1) is not modelled, because integers are unbounded.
- LegacyChunks.NewChunkState and LegacyChunks.Chunk.constructor require a canonical rectangle. `image.NewPaletted` over a rectangle with Max below Min is not modelled. The canvas only passes canonical chunk rectangles (Modules/canvas.go:127-135).

## Findings

| source | as written | input that shows it | evidently intended | confidence | as-written member | corrected member |
|---|---|---|---|---|---|---|
| utility.go:136-149 | copyImageReduced allocates `rect.Dx()*stride` bytes for Dy rows of `stride` bytes | an RGBA image over Rect(0,0,1,2): 4 bytes are allocated, and row 1 is copied to bytes 4..8 | a buffer of `rect.Dy()*stride` bytes | not executed | Utility.CopyImageReducedAsWritten | Utility.CopyImageReduced |
| canvasdiskreader.go:394-397 | the end time of the previous recording is set through `recs[i-1]`, where i is the index in the file list | files ["a.pixrec" unreadable, "b.pixrec" with header (0, (64,64), (0,0))]: at i = 1 `recs` is empty | set the end time of the last element of `recs` | not executed | DiskReaders.SkippedFilePanics | DiskReaders.ScanFilesMatching |
| Modules/chunk.go:113-128 | `*chu.Image` copies only the image header, and `copy(img.Pix, chu.Image.Pix)` copies the buffer onto itself | a copy handed out by getImageCopy, followed by a setPixelIndex on the valid chunk: the copy shows the new pixel | a copy in a buffer of its own | not executed | LegacyChunks.Chunk.GetImageCopyAsWritten | LegacyChunks.Chunk.GetImageCopy |
