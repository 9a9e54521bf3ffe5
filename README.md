# Ambiguous PNG packer: a Dafny model

The packer writes one PNG file that two decoders show as two different
images. A decoder that inflates the IDAT stream as a whole sees one image,
and a decoder that follows Apple's iDOT chunk sees the other. The iDOT
chunk splits the image in two parts and inflates each part on its own.

Both images are filtered into rows of `targetSize = 3 * width + 1` bytes.
They are cut into pieces of rows. Each piece of each image is fitted into
a block of exactly `targetSize - 5` bytes: an empty stored block, a
DEFLATE run, a stored block of the tail and empty stored blocks as padding.

The blocks of the two images alternate, and each is followed by a stored
header that announces `targetSize` literal bytes. The stream head `a` ends
in such a header. A reader that inflates `a + b` as one stream therefore
swallows every block of the first image, with the header after it, as
literal bytes, and decodes the blocks of the second image. A reader that
starts afresh at `b`, as the iDOT chunk directs, decodes the blocks of the
first image and swallows every block of the second image instead.

The model covers the following:

- `verbatim` and the stored-block framing. These are in `stored_block.dfy`, with a reader that proves the framing unambiguous.
- `applyFilter` and `checkFilterBytes`, in `filter.dfy`.
- The exact-size fitter `compressToSize`, in `fitter.dfy`.
- The row-piece composer of `pack`, in `composer.dfy`:
  - the search for a piece height;
  - the assembly of a piece;
  - the outer loop;
  - the re-synchronisation of the stream.
- The PNG container, in `container.dfy`: chunks, the growable byte buffer, and the IHDR and iDOT bodies.
- `pack` from the two RGB canvases to the bytes of the output file, in `packer.dfy`.

Each loop of the source is a method. The method is proved equal to a
function, and the properties are lemmas about that function. The
loop-free methods (`Fitter.Attempt`, `Composer.ProbeRows`,
`Composer.AssemblePiece`, `Composer.ComposePiece`, `Composer.ResyncStream`,
`Packer.FinishPack`, `Packer.CheckAndWrite`, `Packer.WriteStreams`) are the
statement form of the function each is proved equal to. They follow the
source's order of calls and keep the methods with loops small.

Some calls stay outside the model. They are parameters:

- the compressor;
- the raw inflater;
- CRC-32;
- Adler-32.

The model assumes one property of the compressor and the inflater, as the
predicate `Fitter.InflatesFramed`. Inflating an empty stored block, a
compressed run, a stored block and padding gives back the run followed by
the stored bytes.

A Swift run-time trap is an explicit outcome, `Failure.Trapped`. The traps
are:

- the step 0 of `stride(from:to:by:)`;
- `UInt16`, `UInt32` and `Int32` of a value out of range;
- a forced unwrap of `nil`;
- a slice out of range.

The thrown errors are `badFilterByte`, `malformedDatagram` and a failure to
inflate.

Where the code and its description disagree, the model follows the code.
The one exception is the bug listed under "## Findings": the packer uses
the intended filter check, and the check as written is modelled beside it.
The disagreements are these:

- A canvas of height 0 is not reported as too small. The trim of the last 5
  bytes of the empty stream `b` traps (`PackerFacts.ZeroHeightTraps`).
- The "largest height that fits" is one less than the first candidate that
  does not fit (`ComposerFacts.SearchPicksChosen`). Later candidates are
  never tried.
- The search never tries a piece of one row, so `acomp!` can trap
  (`ComposerFacts.NilUnwrapOnlyForOneRow`).
- A suffix of more than 0xFFFF bytes traps in `UInt16(ending.count)`. The
  fitter does not skip it (`Fitter.Fit.LengthOverflow`).
- The IHDR height is `ypos + 1`, one more than the canvas height, because
  `a` adds a zero row (`PackerFacts.PackedChunks`).

## Model

| member | source | states |
|---|---|---|
| Bytes.Zeros | Sources/SwiftAmbiguousPNGPacker/SwiftAmbiguousPNGPacker.swift:233 | `n` zero bytes, as `[UInt8](repeating: 0x0, count: n)`: length `n`, every byte 0 |
| Bytes.LE16RoundTrip | Sources/SwiftAmbiguousPNGPacker/SwiftAmbiguousPNGPacker.swift:115-116 | the two little-endian bytes of a 16-bit LEN/NLEN read back as the value written |
| Bytes.LE16ValueRoundTrip | Sources/SwiftAmbiguousPNGPacker/SwiftAmbiguousPNGPacker.swift:115-116 | any two bytes, read as a 16-bit little-endian value and written again, give back the same two bytes, so a LEN or NLEN field is fixed by its value |
| Bytes.BE32RoundTrip | Sources/SwiftAmbiguousPNGPacker/SwiftAmbiguousPNGPacker.swift:301-302 | the four big-endian bytes of a `UInt32`/`Int32` field read back as the value written |
| StoredBlock.Header | Sources/SwiftAmbiguousPNGPacker/SwiftAmbiguousPNGPacker.swift:114-116 | the five header bytes of a stored block: BFINAL, LEN and NLEN; no contract of its own: Verbatim, CutHeaderAnnounces and ParseVerbatim state its fields |
| StoredBlock.Verbatim | Sources/SwiftAmbiguousPNGPacker/SwiftAmbiguousPNGPacker.swift:113-118 | `verbatim(data, last)` is `|data| + 5` bytes: BFINAL byte 0 or 1, LEN `|data|`, NLEN `0xFFFF - |data|` little-endian, then `data` unchanged |
| StoredBlock.EmptyBlock | Sources/SwiftAmbiguousPNGPacker/SwiftAmbiguousPNGPacker.swift:113-118 | `verbatim()` is exactly `00 00 00 FF FF` |
| StoredBlock.FinalEmptyBlock | Sources/SwiftAmbiguousPNGPacker/SwiftAmbiguousPNGPacker.swift:113-118 | `verbatim(last: true)` is exactly `01 00 00 FF FF` |
| StoredBlock.EmptyBlockBytes | Sources/SwiftAmbiguousPNGPacker/SwiftAmbiguousPNGPacker.swift:113-118 | the empty stored blocks, final and not, byte for byte |
| StoredBlock.CutHeaderAnnounces | Sources/SwiftAmbiguousPNGPacker/SwiftAmbiguousPNGPacker.swift:233-234 | the first five bytes of a stored block of `n` zeros are a header announcing `n` literal bytes, and for `n > 0` are not an empty block |
| StoredBlock.Padding | Sources/SwiftAmbiguousPNGPacker/SwiftAmbiguousPNGPacker.swift:153 | `k` empty stored blocks are `5 * k` bytes |
| StoredBlock.ParseVerbatim | Sources/SwiftAmbiguousPNGPacker/SwiftAmbiguousPNGPacker.swift:113-118 | a reader of stored blocks reads back the final flag and the data `verbatim` wrote, and leaves what follows |
| StoredBlock.ParsedIsVerbatim | Sources/SwiftAmbiguousPNGPacker/SwiftAmbiguousPNGPacker.swift:113-118 | every stored block a reader accepts is `verbatim` of its data: the framing is unambiguous |
| Filter.Filtered | Sources/SwiftAmbiguousPNGPacker/SwiftAmbiguousPNGPacker.swift:93-101 | what `applyFilter` returns, row by row; no contract of its own: FilteredLength, FilteredRowAt and FilteredRowStartsZero state its shape |
| Filter.ApplyFilter | Sources/SwiftAmbiguousPNGPacker/SwiftAmbiguousPNGPacker.swift:93-101 | the loop over row offsets builds exactly `Filtered(imageData, width * 3)` |
| Filter.FilteredLength | Sources/SwiftAmbiguousPNGPacker/SwiftAmbiguousPNGPacker.swift:93-101 | filtering `rows` rows of `stride` bytes gives `rows * (stride + 1)` bytes |
| Filter.FilteredRowAt | Sources/SwiftAmbiguousPNGPacker/SwiftAmbiguousPNGPacker.swift:93-101 | every row `k` of the filtered stream is byte 0 followed by row `k` of the canvas, unchanged |
| Filter.FilteredRowStartsZero | Sources/SwiftAmbiguousPNGPacker/SwiftAmbiguousPNGPacker.swift:93-101 | every offset that is a multiple of `stride + 1` in a filtered stream holds 0, short last row included |
| Filter.FilterCheck | Sources/SwiftAmbiguousPNGPacker/SwiftAmbiguousPNGPacker.swift:103-111 | `checkFilterBytes` as intended; no contract of its own: FilterCheckMeaning states it passes iff every row start holds 0, and otherwise throws at the first one that does not |
| Filter.FilterCheckAsWritten | Sources/SwiftAmbiguousPNGPacker/SwiftAmbiguousPNGPacker.swift:103-111 | `checkFilterBytes` as written, with the dump slice of line 107; no contract of its own: DumpTrapsOnFirstByte and AsWrittenDiffersNearEdges compare it with the intended check |
| Filter.CheckFilterBytes | Sources/SwiftAmbiguousPNGPacker/SwiftAmbiguousPNGPacker.swift:103-111 | the loop over row starts returns the intended check `FilterCheck` |
| Filter.FirstBadRow | Sources/SwiftAmbiguousPNGPacker/SwiftAmbiguousPNGPacker.swift:105-109 | the scan over row starts for the first byte that is not 0; no contract of its own: FirstBadRowSpec states it finds the first such row or none |
| Filter.FirstBadRowSpec | Sources/SwiftAmbiguousPNGPacker/SwiftAmbiguousPNGPacker.swift:105-109 | the scan finds no bad row exactly when every row start from `k` on holds 0, and otherwise the first one that does not |
| Filter.FilterCheckMeaning | Sources/SwiftAmbiguousPNGPacker/SwiftAmbiguousPNGPacker.swift:103-111 | the check passes iff every row start holds 0, and otherwise throws `badFilterByte` at the smallest row start that does not |
| Filter.FilteredPassesCheck | Sources/SwiftAmbiguousPNGPacker/SwiftAmbiguousPNGPacker.swift:288-289 | the check passes on anything `applyFilter` produced |
| Filter.DumpTrapsOnFirstByte | Sources/SwiftAmbiguousPNGPacker/SwiftAmbiguousPNGPacker.swift:107 | on data `[1]` the written check traps in the dump slice where `badFilterByte(0)` was meant |
| Filter.AsWrittenDiffersNearEdges | Sources/SwiftAmbiguousPNGPacker/SwiftAmbiguousPNGPacker.swift:107-108 | the written check and the intended one differ exactly when the first bad row start is within 10 bytes of either end |
| Fitter.Framed | Sources/SwiftAmbiguousPNGPacker/SwiftAmbiguousPNGPacker.swift:140-153 | an attempt with its padding: the empty stored block, the compressed prefix, the stored suffix and the empty blocks; no contract of its own: FitAtFirstStop states the fitted block is one, and FitRoundTrip that it inflates back |
| Fitter.Remainder | Sources/SwiftAmbiguousPNGPacker/SwiftAmbiguousPNGPacker.swift:141 | `size - attempt.count` for a suffix of `i` bytes; no contract of its own: Attempt is proved to compute it, and FitAtFirstStop states its sign picks nil or the padding |
| Fitter.Stops | Sources/SwiftAmbiguousPNGPacker/SwiftAmbiguousPNGPacker.swift:142 | the test `remainder % 5 == 0`; no contract of its own: SearchSpec and FirstStopOrNever state the loop stops at the first length that passes it |
| Fitter.FitToSize | Sources/SwiftAmbiguousPNGPacker/SwiftAmbiguousPNGPacker.swift:132-157 | what `compressToSize` returns; no contract of its own: FitAtFirstStop and FitWhenNeverStops characterise it, and FitLength and FitRoundTrip state its two assertions |
| Fitter.SearchSplit | Sources/SwiftAmbiguousPNGPacker/SwiftAmbiguousPNGPacker.swift:136-146 | a suffix length the loop stops at is in range, at most 0xFFFF, and leaves a remainder divisible by 5 |
| Fitter.Search | Sources/SwiftAmbiguousPNGPacker/SwiftAmbiguousPNGPacker.swift:136-146 | the loop over lengths `i ..< n` stops only at a length the rule accepts, in range and at most 0xFFFF |
| Fitter.SearchSpec | Sources/SwiftAmbiguousPNGPacker/SwiftAmbiguousPNGPacker.swift:136-146 | the loop stops at the first accepted length; it runs out of lengths, or reaches a suffix past 0xFFFF, only when no earlier length is accepted |
| Fitter.FirstStopUnique | Sources/SwiftAmbiguousPNGPacker/SwiftAmbiguousPNGPacker.swift:136-146 | at most one suffix length is the first whose remainder is a multiple of 5 |
| Fitter.FirstStopOrNever | Sources/SwiftAmbiguousPNGPacker/SwiftAmbiguousPNGPacker.swift:136-146 | either some suffix length is the first to stop the loop, or none of the lengths it tries stops it |
| Fitter.FitAtFirstStop | Sources/SwiftAmbiguousPNGPacker/SwiftAmbiguousPNGPacker.swift:136-156 | at the first stopping length, `compressToSize` is nil when the remainder is negative, and otherwise that attempt padded with `remainder / 5` empty blocks |
| Fitter.FitWhenNeverStops | Sources/SwiftAmbiguousPNGPacker/SwiftAmbiguousPNGPacker.swift:136-149 | when no length stops the loop, `compressToSize` is nil, or the 16-bit trap once the data has a suffix of more than 0xFFFF bytes |
| Fitter.Attempt | Sources/SwiftAmbiguousPNGPacker/SwiftAmbiguousPNGPacker.swift:137-141 | one attempt is the empty stored block, the compressed prefix and the stored suffix of `i` bytes, and its remainder is `Remainder` at `i` |
| Fitter.CompressToSize | Sources/SwiftAmbiguousPNGPacker/SwiftAmbiguousPNGPacker.swift:132-157 | the loop returns `FitToSize`, and a fitted block is exactly `size` bytes |
| Fitter.FitLength | Sources/SwiftAmbiguousPNGPacker/SwiftAmbiguousPNGPacker.swift:154 | the assertion `attempt.count == size` holds on every fitted block |
| Fitter.FitRoundTrip | Sources/SwiftAmbiguousPNGPacker/SwiftAmbiguousPNGPacker.swift:155 | the assertion `decompressHeaderless(attempt) == data` holds on every fitted block, given only that inflating a framed compressed run gives back the run and the stored bytes |
| Fitter.FitFunction | Sources/SwiftAmbiguousPNGPacker/SwiftAmbiguousPNGPacker.swift:132-157 | `compressToSize` as the fitter the composer is handed; no contract of its own: OracleLength and OracleRoundTrip state the length and the round trip of its blocks |
| Fitter.OracleLength | Sources/SwiftAmbiguousPNGPacker/SwiftAmbiguousPNGPacker.swift:154 | when the composer's fitter is `compressToSize`, a block it returns is exactly `size` bytes |
| Fitter.OracleRoundTrip | Sources/SwiftAmbiguousPNGPacker/SwiftAmbiguousPNGPacker.swift:155 | when the composer's fitter is `compressToSize`, a block it returns inflates back to the data |
| Composer.Rows | Sources/SwiftAmbiguousPNGPacker/SwiftAmbiguousPNGPacker.swift:247-249 | the slice of `p` rows at row `y` is `targetSize * p` bytes |
| Composer.FitRows | Sources/SwiftAmbiguousPNGPacker/SwiftAmbiguousPNGPacker.swift:249-268 | `compressToSize` of the slice of `p` rows of one image at row `y`, to `targetSize - 5` bytes; no contract of its own: FittedLength and FittedInflates state its blocks' length and round trip |
| Composer.ProbeHeight | Sources/SwiftAmbiguousPNGPacker/SwiftAmbiguousPNGPacker.swift:249-258 | how one candidate height fares; no contract of its own: ProbeCases states its three outcomes |
| Composer.ProbeCases | Sources/SwiftAmbiguousPNGPacker/SwiftAmbiguousPNGPacker.swift:249-258 | a candidate fails when the first image's fit is nil, traps when its suffix overflows, and otherwise is decided by the second image's fit |
| Composer.SearchHeight | Sources/SwiftAmbiguousPNGPacker/SwiftAmbiguousPNGPacker.swift:240-263 | the height found at row `y` lies between `q - 1` and `height - y - 1`; the only failure is the 16-bit overflow trap |
| Composer.Assemble | Sources/SwiftAmbiguousPNGPacker/SwiftAmbiguousPNGPacker.swift:265-273 | a piece made of rows `y ..< y + p` starts at `y` and holds `p` rows |
| Composer.Round | Sources/SwiftAmbiguousPNGPacker/SwiftAmbiguousPNGPacker.swift:239-275 | a round at row `y` yields a piece of at least one row starting at `y` that leaves room for the separator row |
| Composer.RowHeader | Sources/SwiftAmbiguousPNGPacker/SwiftAmbiguousPNGPacker.swift:234 | `verbatim(zeros)[..<5]` is the stored header announcing `targetSize` literal bytes |
| Composer.ComposeFrom | Sources/SwiftAmbiguousPNGPacker/SwiftAmbiguousPNGPacker.swift:236-276 | the pieces the outer loop makes from row `y` on; no contract of its own: ComposeFromTiles states they tile the rows, and ComposedNonEmpty that there is at least one |
| Composer.Continue | Sources/SwiftAmbiguousPNGPacker/SwiftAmbiguousPNGPacker.swift:236-276 | what the outer loop appends to `b` from row `y` on; no contract of its own: ContinueDone, ContinueStep and ContinueFails state its three cases |
| Composer.Resync | Sources/SwiftAmbiguousPNGPacker/SwiftAmbiguousPNGPacker.swift:279-281 | the re-synchronisation of `b`; no contract of its own: ResyncLength states its length and ComposeStreamEnd its last ten bytes |
| Composer.Head | Sources/SwiftAmbiguousPNGPacker/SwiftAmbiguousPNGPacker.swift:232-234 | the stream head `a`; no contract of its own: ComposeHead states its bytes and length |
| Composer.Compose | Sources/SwiftAmbiguousPNGPacker/SwiftAmbiguousPNGPacker.swift:228-281 | the composer as a whole; no contract of its own: ComposedFromPieces, ComposeStream and ComposeStreamEnd state what a successful composition is |
| Composer.Appended | Sources/SwiftAmbiguousPNGPacker/SwiftAmbiguousPNGPacker.swift:270-273 | what one round appends to `b`; no contract of its own: AppendPiece and ContinueStep state it is block, header, block, header |
| Composer.Flatten | Sources/SwiftAmbiguousPNGPacker/SwiftAmbiguousPNGPacker.swift:239-276 | what all rounds append to `b`, in order; no contract of its own: FlattenLength states its length and ComposedFromPieces that `b` is its re-synchronisation |
| Composer.Finish | Sources/SwiftAmbiguousPNGPacker/SwiftAmbiguousPNGPacker.swift:277-281 | the stream re-synchronised next to the head; no contract of its own: ComposedFromPieces and ComposeStreamEnd state what it yields |
| Composer.ContinueFails | Sources/SwiftAmbiguousPNGPacker/SwiftAmbiguousPNGPacker.swift:239-276 | a failing round ends the outer loop with its failure |
| Composer.ContinueStep | Sources/SwiftAmbiguousPNGPacker/SwiftAmbiguousPNGPacker.swift:270-275 | a successful round appends block, header, block, header and advances `ypos` by `pieceheight + 1` |
| Composer.ContinueDone | Sources/SwiftAmbiguousPNGPacker/SwiftAmbiguousPNGPacker.swift:239 | at `ypos == height` the outer loop stops and returns `b` unchanged |
| Composer.ChoosePieceHeight | Sources/SwiftAmbiguousPNGPacker/SwiftAmbiguousPNGPacker.swift:240-263 | the search loop with its `found` flag returns `SearchHeight` |
| Composer.ProbeRows | Sources/SwiftAmbiguousPNGPacker/SwiftAmbiguousPNGPacker.swift:247-258 | one candidate height returns `ProbeHeight`: nil from the first image ends the search, then nil from the second, and a suffix overflow traps |
| Composer.AssemblePiece | Sources/SwiftAmbiguousPNGPacker/SwiftAmbiguousPNGPacker.swift:265-273 | slicing both images and fitting both slices returns `Assemble` |
| Composer.AppendPiece | Sources/SwiftAmbiguousPNGPacker/SwiftAmbiguousPNGPacker.swift:270-273 | the four appends put the first block, a row header, the second block and a row header on `b` |
| Composer.Advance | Sources/SwiftAmbiguousPNGPacker/SwiftAmbiguousPNGPacker.swift:270-275 | one round appends the piece to `b` and moves `ypos` on by `pieceheight + 1`, to at most `height`, so the rest of the loop still ends in the outcome it had before the round |
| Composer.ComposePiece | Sources/SwiftAmbiguousPNGPacker/SwiftAmbiguousPNGPacker.swift:242-273 | the `malformedDatagram` guard, the search and the assembly return `Round` |
| Composer.BuildStream | Sources/SwiftAmbiguousPNGPacker/SwiftAmbiguousPNGPacker.swift:236-276 | the outer loop returns the stream of the composed pieces and ends with `ypos == height` |
| Composer.ResyncStream | Sources/SwiftAmbiguousPNGPacker/SwiftAmbiguousPNGPacker.swift:279-281 | the trim and the two empty blocks return `Resync`, trapping on a stream under 5 bytes |
| Composer.ComposeRows | Sources/SwiftAmbiguousPNGPacker/SwiftAmbiguousPNGPacker.swift:228-281 | the composer returns `Compose` of its inputs |
| ComposerFacts.SearchHeightSpec | Sources/SwiftAmbiguousPNGPacker/SwiftAmbiguousPNGPacker.swift:240-263 | every candidate the search passes fits in both images, and the next candidate (if any before the last row) fails; an overflow comes from a candidate after a run of fits |
| ComposerFacts.SearchPicksChosen | Sources/SwiftAmbiguousPNGPacker/SwiftAmbiguousPNGPacker.swift:240-263 | the piece height is one less than the first candidate that does not fit in both images |
| ComposerFacts.ChosenUnique | Sources/SwiftAmbiguousPNGPacker/SwiftAmbiguousPNGPacker.swift:240-263 | at most one height meets that description |
| ComposerFacts.MalformedIffOneRowLeft | Sources/SwiftAmbiguousPNGPacker/SwiftAmbiguousPNGPacker.swift:242-244 | a round throws `malformedDatagram` exactly when one row is left |
| ComposerFacts.NilUnwrapOnlyForOneRow | Sources/SwiftAmbiguousPNGPacker/SwiftAmbiguousPNGPacker.swift:267-270 | a forced unwrap of a nil fit can only happen for a piece of one row, the height the search never tries |
| ComposerFacts.ComposeFromTiles | Sources/SwiftAmbiguousPNGPacker/SwiftAmbiguousPNGPacker.swift:238-276 | the pieces tile rows `0 ..< height` in order, one separator row after each, and each piece's blocks are the fits of its rows |
| ComposerFacts.PieceLengths | Sources/SwiftAmbiguousPNGPacker/SwiftAmbiguousPNGPacker.swift:249-273 | each block is `targetSize - 5` bytes, so a block and a row header make exactly the `targetSize` bytes the previous header announced |
| ComposerFacts.BlockLength | Sources/SwiftAmbiguousPNGPacker/SwiftAmbiguousPNGPacker.swift:267-268 | each block fitted for a piece is exactly `targetSize - 5` bytes |
| ComposerFacts.FittedLength | Sources/SwiftAmbiguousPNGPacker/SwiftAmbiguousPNGPacker.swift:267-268 | a block the `compressToSize` oracle fits for the rows is `targetSize - 5` bytes |
| ComposerFacts.FittedInflates | Sources/SwiftAmbiguousPNGPacker/SwiftAmbiguousPNGPacker.swift:267-268 | a block the `compressToSize` oracle fits for the rows inflates back to them, under the framed-inflate property |
| ComposerFacts.AllSized | Sources/SwiftAmbiguousPNGPacker/SwiftAmbiguousPNGPacker.swift:267-273 | every piece of a composition holds two blocks of `targetSize - 5` bytes |
| ComposerFacts.BlockInflates | Sources/SwiftAmbiguousPNGPacker/SwiftAmbiguousPNGPacker.swift:267-268 | a piece's block inflates back to the image rows it holds |
| ComposerFacts.PieceInflates | Sources/SwiftAmbiguousPNGPacker/SwiftAmbiguousPNGPacker.swift:267-268 | both blocks of a piece inflate back to the piece's rows of their images |
| ComposerFacts.FlattenLength | Sources/SwiftAmbiguousPNGPacker/SwiftAmbiguousPNGPacker.swift:270-273 | pieces of such blocks append `2 * targetSize` bytes each |
| ComposerFacts.ResyncLength | Sources/SwiftAmbiguousPNGPacker/SwiftAmbiguousPNGPacker.swift:279-281 | the re-synchronisation of a stream of at least 5 bytes succeeds, trims 5 bytes and adds 10 |
| ComposerFacts.ResyncedLength | Sources/SwiftAmbiguousPNGPacker/SwiftAmbiguousPNGPacker.swift:270-281 | re-synchronising the stream of `n` pieces gives `2 * targetSize * n + 5` bytes |
| ComposerFacts.ComposedFromPieces | Sources/SwiftAmbiguousPNGPacker/SwiftAmbiguousPNGPacker.swift:228-281 | a successful composition is the head `a`, the re-synchronised stream of its pieces, and `ypos == height` |
| ComposerFacts.ComposedNonEmpty | Sources/SwiftAmbiguousPNGPacker/SwiftAmbiguousPNGPacker.swift:279 | a successful composition has at least one piece |
| ComposerFacts.ComposeNoRows | Sources/SwiftAmbiguousPNGPacker/SwiftAmbiguousPNGPacker.swift:239-279 | with no rows the outer loop does nothing, and the trim of the empty `b` traps |
| ComposerFacts.ComposeHead | Sources/SwiftAmbiguousPNGPacker/SwiftAmbiguousPNGPacker.swift:232-234 | `a` is one stored row of zeros and a header announcing `targetSize` literal bytes, `targetSize + 10` bytes in all; the height is at least 1 |
| ComposerFacts.ComposeStream | Sources/SwiftAmbiguousPNGPacker/SwiftAmbiguousPNGPacker.swift:236-281 | `b` is `2 * targetSize` bytes per piece plus 5 |
| ComposerFacts.ComposeStreamEnd | Sources/SwiftAmbiguousPNGPacker/SwiftAmbiguousPNGPacker.swift:279-281 | `b` ends with the empty stored block and the final empty stored block |
| Container.Chunk | Sources/SwiftAmbiguousPNGPacker/SwiftAmbiguousPNGPacker.swift:159-179 | a chunk is its body plus 12 bytes |
| Container.ByteBuffer.constructor | Sources/SwiftAmbiguousPNGPacker/SwiftAmbiguousPNGPacker.swift:311 | a new buffer is empty |
| Container.ByteBuffer.WriterIndex | Sources/SwiftAmbiguousPNGPacker/SwiftAmbiguousPNGPacker.swift:313 | `writerIndex`, the number of bytes written; no contract of its own: WriteChunk states it advances by body length + 12, and StageIdats that `firstOffset` is the first chunk's length |
| Container.ByteBuffer.WriteBytes | Sources/SwiftAmbiguousPNGPacker/SwiftAmbiguousPNGPacker.swift:172-178 | `writeBytes` appends the bytes |
| Container.WriteChunk | Sources/SwiftAmbiguousPNGPacker/SwiftAmbiguousPNGPacker.swift:170-179 | `writeChunk` appends length, name, body and CRC of name and body to the buffer, and advances `writerIndex` by body length + 12 |
| Container.IhdrBody | Sources/SwiftAmbiguousPNGPacker/SwiftAmbiguousPNGPacker.swift:300-307 | the IHDR body; no contract of its own: IhdrFields states its 13 bytes |
| Container.IdotBody | Sources/SwiftAmbiguousPNGPacker/SwiftAmbiguousPNGPacker.swift:316-326 | the iDOT body; no contract of its own: IdotFields states its seven fields |
| Container.IhdrFields | Sources/SwiftAmbiguousPNGPacker/SwiftAmbiguousPNGPacker.swift:300-307 | the IHDR body is 13 bytes: width, height, bit depth 8, colour type 2, then three zeros |
| Container.IdotFields | Sources/SwiftAmbiguousPNGPacker/SwiftAmbiguousPNGPacker.swift:316-326 | the iDOT body is 28 bytes (the chunk `idotSize` = 40): 2, 0, 1, 40, first height 1, the second height, the restart offset |
| Container.ParseChunk | Sources/SwiftAmbiguousPNGPacker/SwiftAmbiguousPNGPacker.swift:159-179 | a reader of one chunk: what it leaves is at least 12 bytes shorter than its input |
| Container.ParseChunkOfChunk | Sources/SwiftAmbiguousPNGPacker/SwiftAmbiguousPNGPacker.swift:159-179 | a reader of chunks reads back the name, the body and the CRC written |
| Container.ParseChunksOfChunks | Sources/SwiftAmbiguousPNGPacker/SwiftAmbiguousPNGPacker.swift:159-179 | a run of chunks reads back as their names and bodies, in order, each with a matching CRC |
| Packer.LayoutFits | Sources/SwiftAmbiguousPNGPacker/SwiftAmbiguousPNGPacker.swift:161-326 | the ranges of the `UInt32` and `Int32` conversions of lines 161, 172, 301-302 and 320-326; no contract of its own: PngFile traps exactly outside it, and WriteFile is proved equal to PngFile |
| Packer.Layout | Sources/SwiftAmbiguousPNGPacker/SwiftAmbiguousPNGPacker.swift:296-333 | the bytes the file receives; no contract of its own: LayoutIsChunks, LayoutChunks and RestartOffsetLocatesSecondIdat state its chunks |
| Packer.PngFile | Sources/SwiftAmbiguousPNGPacker/SwiftAmbiguousPNGPacker.swift:296-333 | the file, or the trap of a `UInt32`/`Int32` conversion that overflows; no contract of its own: WriteFile is proved equal to it |
| Packer.Checked | Sources/SwiftAmbiguousPNGPacker/SwiftAmbiguousPNGPacker.swift:288-333 | both filter checks and then the file; no contract of its own: CheckAndWrite is proved equal to it |
| Packer.Finalize | Sources/SwiftAmbiguousPNGPacker/SwiftAmbiguousPNGPacker.swift:283-333 | the three inflations, then `Checked`; no contract of its own: FinalizeOk states what a finished file implies |
| Packer.PackFile | Sources/SwiftAmbiguousPNGPacker/SwiftAmbiguousPNGPacker.swift:225-333 | what `pack` writes from the two canvases; no contract of its own: PackedFile and PackedChunks state what a packed file is |
| Packer.PackInput | Sources/SwiftAmbiguousPNGPacker/SwiftAmbiguousPNGPacker.swift:228-230 | the filtered canvases hold `height` rows of `targetSize` bytes, as the composer needs |
| Packer.StageIdats | Sources/SwiftAmbiguousPNGPacker/SwiftAmbiguousPNGPacker.swift:311-314 | the IDAT buffer holds the chunk of `a` then the chunk of `b`; `firstOffset` is the length of the first |
| Packer.WriteTail | Sources/SwiftAmbiguousPNGPacker/SwiftAmbiguousPNGPacker.swift:316-333 | the file gets the iDOT chunk, the staged IDAT chunks and IEND, in that order |
| Packer.FileOfParts | Sources/SwiftAmbiguousPNGPacker/SwiftAmbiguousPNGPacker.swift:309-333 | the signature and IHDR, then the iDOT with restart `idotSize + firstOffset`, the staged IDAT chunks and IEND, are the file `PngFile` describes |
| Packer.WriteFile | Sources/SwiftAmbiguousPNGPacker/SwiftAmbiguousPNGPacker.swift:296-333 | the writes of the file return `PngFile`: the layout, or a trap when a `UInt32`/`Int32` field overflows |
| Packer.WriteStreams | Sources/SwiftAmbiguousPNGPacker/SwiftAmbiguousPNGPacker.swift:291-333 | prepending `78 DA` to `a`, appending the big-endian Adler-32 of the second reading to `b`, and writing the file of height `ypos + 1` return `PngFile` |
| Packer.CheckAndWrite | Sources/SwiftAmbiguousPNGPacker/SwiftAmbiguousPNGPacker.swift:288-333 | the two filter checks and the writes return `Checked`: `badFilterByte` from the first check that fails, and otherwise the file |
| Packer.FinishPack | Sources/SwiftAmbiguousPNGPacker/SwiftAmbiguousPNGPacker.swift:283-333 | inflating `a`, `b` and `a + b`, with a failed inflate as `InflateFailed`, and then checking and writing return `Finalize` |
| Packer.Pack | Sources/SwiftAmbiguousPNGPacker/SwiftAmbiguousPNGPacker.swift:225-333 | `pack` from the two RGB canvases returns `PackFile` |
| PackerFacts.ZlibHeaderValid | Sources/SwiftAmbiguousPNGPacker/SwiftAmbiguousPNGPacker.swift:291 | `78 DA` is a zlib header: method 8, window 2^15, check value divisible by 31 |
| PackerFacts.LayoutIsChunks | Sources/SwiftAmbiguousPNGPacker/SwiftAmbiguousPNGPacker.swift:296-333 | the file is the signature and the run of chunks IHDR, iDOT, IDAT, IDAT, IEND |
| PackerFacts.LayoutSpecs | Sources/SwiftAmbiguousPNGPacker/SwiftAmbiguousPNGPacker.swift:309-333 | the chunk list of the file is five chunks, each with a four-byte name and a body whose length fits its field |
| PackerFacts.LayoutChunks | Sources/SwiftAmbiguousPNGPacker/SwiftAmbiguousPNGPacker.swift:296-333 | the file starts with the PNG signature and reads back as exactly IHDR, iDOT, IDAT `a`, IDAT `b`, IEND, each CRC matching |
| PackerFacts.HeaderFields | Sources/SwiftAmbiguousPNGPacker/SwiftAmbiguousPNGPacker.swift:300-326 | the IHDR body holds the width and the height, and the iDOT body holds the first height 1, the second height and the restart offset, as big-endian fields |
| PackerFacts.FileChunks | Sources/SwiftAmbiguousPNGPacker/SwiftAmbiguousPNGPacker.swift:296-333 | every layout starts with the signature and reads back as IHDR, iDOT, IDAT `a`, IDAT `b` and IEND, each CRC matching, with the restart offset `idotSize + |a| + 12` |
| PackerFacts.RestartOffsetLocatesSecondIdat | Sources/SwiftAmbiguousPNGPacker/SwiftAmbiguousPNGPacker.swift:313-326 | the iDOT restart offset, counted from the iDOT chunk at byte 33, lands exactly on the second IDAT chunk, with the first IDAT chunk between |
| PackerFacts.PackedFile | Sources/SwiftAmbiguousPNGPacker/SwiftAmbiguousPNGPacker.swift:283-333 | a packed file has width and height at least 1 and a row of at most 0xFFFF bytes; it is `Finalize` of a successful composition that reaches `ypos == height` with an `a` of `targetSize + 10` bytes |
| PackerFacts.FinalizeOk | Sources/SwiftAmbiguousPNGPacker/SwiftAmbiguousPNGPacker.swift:283-333 | a finished file means the three inflations succeeded, both readings passed the filter check, and the file is the layout of `78 DA` + `a` and of `b` with the Adler-32 of the second reading, with height `ypos + 1` |
| PackerFacts.PackedChunks | Sources/SwiftAmbiguousPNGPacker/SwiftAmbiguousPNGPacker.swift:291-333 | a packed file's IHDR holds the width and `H + 1`, its iDOT splits after row 1 with the restart at `40 + targetSize + 24`, its first IDAT starts with `78 DA`, and the chunk order and CRCs hold |
| PackerFacts.ZeroWidthTraps | Sources/SwiftAmbiguousPNGPacker/SwiftAmbiguousPNGPacker.swift:96-97 | width 0 traps on the stride of 0 |
| PackerFacts.ZeroHeightTraps | Sources/SwiftAmbiguousPNGPacker/SwiftAmbiguousPNGPacker.swift:279 | height 0 traps when the last 5 bytes are trimmed off the empty `b` |
| PackerFacts.WideCanvasTraps | Sources/SwiftAmbiguousPNGPacker/SwiftAmbiguousPNGPacker.swift:115 | a row of more than 0xFFFF bytes traps on the 16-bit LEN |

## Left out

- The image loading of lines 187-226 is left out: Core Graphics sources, the width and height taken as the larger of the two images, drawing into a canvas, and `rgbData`. The model starts from the two RGB canvases.
- File I/O is left out: creating the output file and writing to the file handle. The output is the byte sequence written. Once line 296 has created the output file, a trap in the source leaves a partial file behind. In the model the run ends in the trap alone.
- `compress`, `decompressHeaderless`, CRC-32 and Adler-32 are library calls. They are function parameters, with only the property `Fitter.InflatesFramed` assumed.
- The throws of `compress` and `decompressHeaderless` are left out. The compressor is total, and a failed inflate is `InflateFailed`.
- The claim that the two readings of the file show the two images is not proved. It depends on how a real inflater treats a stream cut inside a stored block, and the model's inflater is opaque. What is proved is the stream's structure:
  - every block inflates back to its rows;
  - every block is exactly `targetSize - 5` bytes, so each header spans one block of the other image and the next header;
  - the stream ends with the re-synchronising empty blocks;
  - both readings pass the filter check before a file is written.
- Composer.ComposeRows: it takes the fitter as an oracle, `Fitter.FitOracle`. The lemmas that need the fitter's sizes and round trip require the oracle to be `Fitter.FitFunction(compress)`.
- Fitter.FitFunction: it answers nil on empty data. In Swift, `1..<0` traps there, but the composer never passes empty data.
- Container.Chunk: the CRC is the given function applied to name and body concatenated. The source advances one CRC over the name and then the body, which is the same checksum.
- Filter.CheckFilterBytes: it returns the intended check `Filter.FilterCheck`. Where line 107's dump slice traps, on a first bad row start under 10 or within 10 bytes of the end, it throws `badFilterByte` instead. The check as written is `Filter.FilterCheckAsWritten` (see "## Findings").
- Packer.Checked: both readings go through the intended check, so the line-107 trap becomes `badFilterByte`.
- Packer.CheckAndWrite: the same as `Packer.Checked`.
- Packer.Finalize: the same, through `Packer.Checked`.
- Packer.FinishPack: the same, through `Packer.Checked`.
- Packer.PackFile: the same, through `Packer.Finalize`.
- Packer.Pack: the same, through `Packer.PackFile`.
- Fitter.CompressToSize: the assertions of lines 154-155 are proved rather than modelled as traps. The length holds always (`Fitter.FitLength`), and the round trip holds given `Fitter.InflatesFramed` (`Fitter.FitRoundTrip`). `Packer.Pack` does not require that property of its codec. A debug build with a codec that breaks it, or whose inflate throws, would trap at line 155; the model does not capture that trap.
- Composer.BuildStream: the row header `verbatim(zeros)[..<5]` is computed once before the loop rather than at each use. It is the same value.

## Findings

| source | as written | input that shows it | evidently intended | confidence | as-written member | corrected member |
|---|---|---|---|---|---|---|
| Sources/SwiftAmbiguousPNGPacker/SwiftAmbiguousPNGPacker.swift:107 | `dump` slices `data[i - 10 ..< i + 10]` before throwing `badFilterByte(i)`, and the slice traps when `i < 10` or `i + 10 > data.count` | the data `[1]` with width 1: the bad byte is at offset 0 | throw `badFilterByte(i)` for every bad row start | medium, not executed | Filter.FilterCheckAsWritten, Filter.DumpTrapsOnFirstByte | Filter.FilterCheck, Filter.FilterCheckMeaning |
