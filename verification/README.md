# RAW decoding, verified

A Dafny model of the parts of libopenraw that turn packed or entropy-coded bytes back into samples, with proofs that
hold for every input. `dafny verify dfyconfig.toml` checks everything.

**Canon CRW** (`Bits`, `CanonStream`, `CanonHuffman`, `CanonDecodeTable`, `CanonBlock`, `CanonPredictor`,
`CanonDecoder`, `CanonTables`, `CanonLowbits`). The decompressor is modelled loop by loop: the bit buffer that drops the
byte behind every 0xff, the recursive construction of the decode tree in a node array, the run/size token loop, the
carry between blocks and the two-column predictor. Each layer is proved to compute a pure function and that function is
proved to invert the encoder which the program's comments describe. `CanonTables` holds the six built-in tables, proves
that their trees fit the 32- and 512-entry arrays and that they have a code for every token a 10-bit image can need; so
every image of 10-bit samples, of any row width, has an encoding that the decompressor reads back to that image; a file
with low-order bits gives that image with those bits merged in as `CanonLowbits` describes. The model follows
`dcraw/decompress.c`; `src/canon/crw/decompress.rs` is a port of it with the same tables and loops, whose bit buffer is
a `u32`, the width modelled here.

**Fixed-width samples** (`Unpackers`, `RowReader`, `OlympusDecoder`, `OlympusDispatch`). The 12-bit unpackers, the
bit-by-bit unpacker, the row loop, the two hand-written Olympus decoders and the dispatch that sends a buffer to one of
them by its length, with what becomes of the buffer on each route. They are related to one meaning, values read off a
bit string most significant bit first, and to packers they invert; success conditions are exact.

**Smaller parts.** `NikonCurve` (in-place interpolation of the tone curve), `SonyKeystream` (a ring buffer that computes
an endless recurrence), `FujiTurn` (scatter and gather of a 45-degree turn), `MetadataIterator` (a stack of iterators),
`MrwContainer` (the walk over data blocks), `NumberList` (printing and parsing lists of integers). `Bitwise` has the
bitwise operators on numbers, `Options` a value that may be missing.

What the specification functions give is also stated apart from them, in plain arithmetic with the constants of the
program written out; so no round trip rests only on a definition that both of its sides share.

Shifts by constant amounts are written as multiplication and division by powers of two; `|` and `&` of the 12-bit
unpackers and of the keystream are bitwise functions on integers, shown to add disjoint bits. Widths that matter are
explicit: the 32-bit bit buffer, the 16-bit output samples, the 32-bit words of the keystream, the unsigned coordinates
of the turn.

## Findings

Properties that do not hold of the code, each with its exact condition and an input for which it fails.

- The interlaced route never reads the whole second field (`OlympusDispatch.InterlacedRoute`, `InterlacedFrame`): the
  dispatch accepts only buffers of exactly the frame's bytes, while the second field starts on the next page behind the
  first, so its end is always missing. All even rows are read, the odd ones up to an index that is less than their
  number, and the whole frame comes back exactly when all samples behind that index are 0. `SecondRowLost`: of two rows
  of 1368 samples, four of the second row are read.
- The interlaced route stops the program (`OlympusDispatch.FramesInRangeIff`): it stays in range exactly for even widths
  above 0 and at least two rows, when the page behind the first field starts at most one row behind it.
  `InterlacedStopsAndCuts`: one row of eight samples stops it.
- The word route stops the program exactly when the frame is not a multiple of eight samples
  (`OlympusDispatch.WordsRoute`, `WordsFitIff`). `WordsStop`: four rows of 3701.
- The packed route (`OlympusDispatch.PackedRowsAgreeIff`, `PackedRoute`, `InStepIff`): dispatch and row reader agree on
  the bytes of a row exactly for even widths not ending in 8. The route succeeds exactly when there are no rows or the
  width ends in 0 or 1. For widths ending in 1 each row comes out one sample short, and unless the width is 1 or there
  is only one row, the rows are read out of step with the buffer. `PackedRowsDisagree`: width 8; `OutOfStep`: every
  width from 11 on that ends in 1, with two rows or more.
- The Nikon curve falls behind the last knot (`NikonCurve.HeaderCurveRisesIff`): for nondecreasing samples the table is
  nondecreasing exactly when the range leaves remainder 0 or 1 divided by the sample count less one, or the last sample
  is 0. `HundredSamplesFall`: a 12-bit header with a hundred samples.
- A Nikon header that is not lossless and announces no samples stops the program, which then looks up index -1
  (`NikonCurve.NoSamplesStop`).
- The MRW walk misses a last block without payload (`MrwContainer.FileWalk`), since it compares a position that counts
  the MRM header with a length that does not; every other file is walked completely. `EmptyBlockMissed`: one block, no
  payload.
- The merge of low-order bits puts the bits of sample `i` behind sample `i + 1` of its block, and the last ones behind 0
  (`CanonLowbits.MergedIsIntendedIff`). If the intent is that each sample is shifted left by two and gets its own two
  bits, the merge does that exactly for images whose samples are all 0 in their low fourteen bits. `LastSampleLost`: a
  block of ones.
- The gather of the Fuji turn subtracts from an unsigned 0 (`FujiTurn.LeftNeighbourInsideIff`, `FrameSafeIff`). Where
  addresses are wider than that index, the left neighbour of every interpolated cell in an odd row lies outside the
  image; so the turn stays inside only for frames of fewer than three rows or fewer than two columns of cells. With
  32-bit addresses the index wraps and all cells are inside.
- The empty list is the one list that is not read back (`NumberList.ListRoundTripIff`). `EmptyListText`: its text.

## Model

| member | source | states |
|---|---|---|
| CanonStream.BitBuffer.GetBits | dcraw/decompress.c:314-334 | A request for -1 primes the buffer; any other up to 25 hands out the value of the next bits of the destuffed stream and advances by exactly that many. The buffer then holds 25 to 32 bits. |
| CanonStream.BitBuffer.FetchByte | dcraw/decompress.c:327-332 | Taking in a byte, and dropping the filler behind 0xff, keeps the buffer equal to the pending window of the stream. |
| CanonStream.DestuffedInOrder | dcraw/decompress.c:327-332 | Which bytes of the file are handed out in which order: behind each 0xff one is dropped, and past the end there are only 0xff. |
| CanonStream.StuffedInOrder | dcraw/decompress.c:330 | Stuffing puts a zero byte behind each 0xff and changes nothing else. |
| CanonStream.DestuffedOfStuffed | dcraw/decompress.c:328-330 | Destuffing undoes stuffing, wherever the stuffed bytes lie in a file. |
| CanonStream.StuffedFileCarriesBits | dcraw/decompress.c:311-334 | The bits read from a stuffed file are the bits of the original bytes. |
| CanonHuffman.LengthAt | dcraw/decompress.c:216-217 | The level found by summing the counts is the code length of the next symbol. |
| CanonHuffman.LeavesAreCanonicalCodes | dcraw/decompress.c:177-227 | Leaf k sits at the end of canonical code k (section C.2 of ITU-T T.81) and at no other path; both directions, over all length lists. |
| CanonHuffman.AllPlacedIffKraft | dcraw/decompress.c:219-226 | Every symbol gets a leaf if and only if the lengths satisfy Kraft's inequality. |
| CanonHuffman.KraftOfSource | dcraw/decompress.c:177-180 | The space the codes take is what the sixteen counts say. |
| CanonHuffman.CodesArePrefixFree | dcraw/decompress.c:185-199 | No code is a prefix of the code of another symbol. |
| CanonHuffman.TreeSize | dcraw/decompress.c:202-227 | The tree of n codes has 2t-1 nodes for t terminals, at most 16 of them unfilled, none exactly when the code is full; a complete code takes 2n-1 nodes. |
| CanonHuffman.CodesReadBack | dcraw/decompress.c:361-363 | Walking the tree over any concatenation of codes returns exactly that sequence of symbols. |
| CanonDecodeTable.DecodeTable.NextLevel | dcraw/decompress.c:213-217 | Tells whether a symbol is left and, if so, the length of its code. |
| CanonDecodeTable.DecodeTable.Grow | dcraw/decompress.c:202-227 | The recursive call stores the subtree that is due at its node, moves both cursors past it and changes no other node. |
| CanonDecodeTable.DecodeTable.MakeDecoder | dcraw/decompress.c:202-227 | The call at level 0 stores the whole decode tree of the specification. |
| CanonBlock.ExtendUndoesValueBits | dcraw/decompress.c:372-374 | Reading the value bits of any nonzero number and extending their sign (section F.2.2.1 of ITU-T T.81) gives the number. |
| CanonBlock.SizeIs | dcraw/decompress.c:164-166 | The size in a token is the least number of bits that represent the magnitude. |
| CanonBlock.ExtendIs | dcraw/decompress.c:372-373 | Which number the value bits of a given size stand for: themselves with the top bit set, else themselves less 2^size - 1. |
| CanonBlock.LeafCases | dcraw/decompress.c:357-375 | What each leaf does at each entry: 0x00 ends, 0xff passes one entry, 0xf0 sixteen, any other passes its high nibble and reads a value of the size in its low one. |
| CanonBlock.EntriesRoundTrip | dcraw/decompress.c:357-375 | From any entry of a block on, the token loop recovers what the encoder wrote and stops right behind it: long runs, the end marker, and no end marker after a nonzero last entry. |
| CanonBlock.BlockRoundTrip | dcraw/decompress.c:357-375 | Decoding inverts encoding for every block whose tokens the tables can express. |
| CanonPredictor.SampleUndone | dcraw/decompress.c:376-382 | Carry and bases undo "subtract the sample two to the left, 512 at the start of a row, first entries differenced across blocks", at every position and for every row width. |
| CanonPredictor.PredictorRoundTrip | dcraw/decompress.c:160-163 | The 16-bit output samples of an encoded image are the image. |
| CanonPredictor.SampleIs | dcraw/decompress.c:376-382 | Each sample in terms of those before it: 512 or the sample two to the left, plus the entry, which every 64 entries is a running sum. |
| CanonPredictor.ZeroEntries | dcraw/decompress.c:376-382 | Entries that are all 0 are an image that is 512 everywhere. |
| CanonPredictor.RowStartResidue | dcraw/decompress.c:159-163 | The first two samples of a row are stored less 512, which for 10-bit samples gives exactly -512 to 511. |
| CanonPredictor.BasesStep | dcraw/decompress.c:378-382 | One turn of the sample loop produces the predicted sample and keeps the two bases right for the rest of the row. |
| CanonDecoder.ReadLeaf | dcraw/decompress.c:361-363 | The walk through the node array reads the symbol of the next code and consumes exactly that code. |
| CanonDecoder.DecodeTokens | dcraw/decompress.c:357-375 | The token loop fills the difference buffer with the entries of the next block. |
| CanonDecoder.PredictBlock | dcraw/decompress.c:378-382 | The sample loop writes the samples of the block and leaves the bases ready for the next. |
| CanonDecoder.Decompress | dcraw/decompress.c:336-396 | The program writes whole blocks until the frame is covered, and they are the decoded image of the file, with the low-order bits of the file merged in if it has them. |
| CanonDecoder.FileLayout | dcraw/decompress.c:353-385 | Where the code and the low-order bits of a frame start; what is merged lies before the code. |
| CanonDecoder.WrittenAt | dcraw/decompress.c:383-392 | Each sample written out: the decoded one, or the one that follows in its block with two bits of the file behind it. |
| CanonDecoder.BlocksRoundTrip | dcraw/decompress.c:356-375 | Any number of encoded blocks is decoded to the entries they encode. |
| CanonDecoder.ImageRoundTrip | dcraw/decompress.c:157-174 | Stuffed bytes of an encoded image, anywhere in a file, decode to the image. |
| CanonTables.TablesValid | dcraw/decompress.c:231-296 | The built-in specifications are valid, their trees fit 32 and 512 nodes, and the first takes 25. |
| CanonTables.DocumentedCode | dcraw/decompress.c:181-199 | The code of the first built-in table is the one listed in the documentation, symbol by symbol. |
| CanonTables.SmallBlockEncodable | dcraw/decompress.c:242-291 | Every block with a first entry below 2048 and others below 1024 in magnitude can be encoded with any built-in table. |
| CanonTables.TenBitImagesRoundTrip | dcraw/decompress.c:157-174 | Every image of 10-bit samples has a file with any table, behind any prefix, and that file decodes to the image. |
| CanonTables.DecompressImage | dcraw/decompress.c:336-396 | Run on a file that holds an image of the frame's size where the code starts, the decompressor writes out that image, as it is or with the low-order bits merged in. |
| CanonLowbits.MergeLowbits | src/canon/crw/decompress.rs:310-326 | The in-place merge leaves each entry of a block with its own low bits behind the sample that follows. |
| CanonLowbits.MergedBlock | dcraw/decompress.c:383-392 | Merging block by block is merging the low-order bits of the whole image. |
| CanonLowbits.MergedAt | src/canon/crw/decompress.rs:314-324 | The low two and the high fourteen bits of every merged sample. |
| CanonLowbits.PairsOfByte | src/canon/crw/decompress.rs:315-320 | The four pairs taken from a byte are its base-4 digits, lowest first. |
| CanonLowbits.MergedIsIntendedIff | src/canon/crw/decompress.rs:314-324 | For whole images, the merge equals appending each sample's own bits exactly when all samples are 0 in their low fourteen bits. |
| CanonLowbits.LastSampleLost | src/canon/crw/decompress.rs:319-320 | A block of ones loses its last sample. |
| Unpackers.GroupValues | src/decompress.rs:117-118 | The shifts and ors of a group give two disjoint twelve-bit fields, in both byte orders. |
| Unpackers.UnpackBe12to16 | src/decompress.rs:79-128 | Succeeds exactly on lengths divisible by 3, or by 16 with padding; appends the unpacked samples and nothing else, or leaves the vector alone. |
| Unpackers.UnpackLe12to16 | src/decompress.rs:133-183 | The same for the little-endian order and its padded compressions. |
| Unpackers.Unpack12to16 | src/decompress.rs:84-127 | The nested loops append the samples of all groups, skipping padding, and count them. |
| Unpackers.TriplesReadBits | src/decompress.rs:79-128 | Unpadded big-endian unpacking is reading the input as one bit string, twelve bits at a time. |
| Unpackers.PairIsNumber | src/decompress.rs:108-124 | Every pair of unpacked samples is the 24-bit number of its three bytes, big-endian with the high sample first, little-endian with the low one first. |
| Unpackers.PaddedPairIsNumber | src/decompress.rs:105-126 | The same at its place between padding bytes. |
| Unpackers.ReadAllAt | src/decompress.rs:43-55 | Value k read off a bit string is that of its own n bits. |
| Unpackers.LittleGroupIsNumber | src/decompress.rs:166-176 | A little-endian group is one 24-bit number in two base-4096 digits. |
| Unpackers.UnpackUndoesPack | src/decompress.rs:108-124 | Unpacking packed samples gives them back, in both orders. |
| Unpackers.PackUndoesUnpack | src/decompress.rs:108-124 | Packing unpacked samples gives the bytes back. |
| Unpackers.UnpackUndoesPackPadded | src/decompress.rs:105-126 | The same with a padding byte of any value behind every ten samples. |
| Unpackers.PackUndoesUnpackPadded | src/decompress.rs:105-126 | The inverse, the padding bytes being kept aside. |
| Unpackers.UnpackBento16 | src/decompress.rs:43-55 | Refuses widths above 16; else appends the values there are bits for and fails exactly when the bits run out. |
| Unpackers.UnpackBothWays | src/decompress.rs:43-128 | On lengths divisible by 3, the fast big-endian unpacker and the bit reader at twelve bits append the same samples. |
| RowReader.UnpackFromReader | src/decompress.rs:211-280 | The row loop terminates, reads exactly the blocks needed, and returns the samples of all rows in order or the first failure. |
| RowReader.BigRows | src/decompress.rs:258-267 | Pentax rows and plain big-endian ones: the bytes read are one bit string, twelve bits a sample. |
| RowReader.LittleRows | src/decompress.rs:263-265 | Plain little-endian rows: every three bytes read are the 24-bit number of two samples. |
| RowReader.PaddedRows | src/decompress.rs:258-270 | Nikon rows are big-endian, Olympus and Panasonic rows little-endian, five groups to sixteen bytes. |
| RowReader.DeepRows | src/decompress.rs:257 | Rows of 10 or 14 bits are one bit string. |
| RowReader.RowsFailure | src/decompress.rs:257-274 | Which rows fail, and with which error. |
| RowReader.ReadPacked | src/decompress.rs:211-280 | An image packed without padding is read back, all width times height samples, for each compression in its own byte order. |
| RowReader.ReadPadded | src/decompress.rs:211-280 | The same with padding bytes of any value, for widths of whole tens. |
| RowReader.ReadDeep | src/decompress.rs:211-280 | The same for 10 and 14 bits, for widths of whole fours. |
| RowReader.BlocksReadIsCeiling | src/decompress.rs:252-254 | The blocks read are the capped byte count divided by the block size, rounded up, and no more than the rows; none for an empty block. |
| RowReader.ImageDecodesIff | src/decompress.rs:227-240 | With enough bytes an image decodes exactly when no block is read or the width fits: remainder 0 or 1 modulo 10 for padded rows, multiples of 4 for 10 and 14 bits. |
| RowReader.RowsAreFlat | src/decompress.rs:253-277 | Row by row is the same as one flat unpacking of all bytes consumed. |
| OlympusDecoder.DecodeWords | src/olympus.rs:252-275 | Stays in range exactly when the buffer is whole groups that fit the frame; its samples are the plain big-endian ones of the buffer with every 4-byte word reversed. |
| OlympusDecoder.WordsRoundTrip | src/olympus.rs:252-275 | Samples that are packed and stored with every word reversed are decoded to themselves. |
| OlympusDispatch.WordsFitIff | src/olympus.rs:300-318 | On the length the dispatch accepts, the word decoder stays in range exactly when the frame is a multiple of eight samples. |
| OlympusDispatch.WordsRoute | src/olympus.rs:300-318 | A buffer sent to the word decoder fills the frame to the last sample, or stops it, by the size of the frame alone. |
| OlympusDispatch.WordsStop | src/olympus.rs:300-318 | A frame that is sent there and stops it. |
| OlympusDecoder.DecodeInterlaced | src/olympus.rs:214-248 | For all sizes: stays in range exactly when there are columns, every row starts within its field and no row ends within a group that is there; its rows are woven from the plain unpacking of two fields, missing groups being 0. |
| OlympusDecoder.OffsetIsNextPage | src/olympus.rs:215-218 | For all sizes, the second field starts at the least multiple of 2048 strictly above the bytes of the first. |
| OlympusDispatch.FramesInRangeIff | src/olympus.rs:300-311 | On a buffer of exactly the frame's bytes the interlaced decoder stays in range if and only if the width is even and not 0, there are two rows, and the page behind the first field starts at most one row behind it. |
| OlympusDecoder.InterlacedRoundTrip | src/olympus.rs:214-248 | Two packed fields, the second on its page, of which any number of bytes from that page on are there: all even rows are restored, and the odd ones up to the last whole group; the rest is 0. |
| OlympusDecoder.WeaveAt | src/olympus.rs:221-229 | Where each sample of the two fields is in the frame. |
| OlympusDispatch.InterlacedRoute | src/olympus.rs:300-311 | For every buffer sent to the interlaced decoder: whether it stops, and that otherwise the end of its second field is missing. |
| OlympusDispatch.InterlacedFrame | src/olympus.rs:300-311 | Which samples of a frame come back through the dispatch, and that the whole frame does exactly when the others are 0. |
| OlympusDispatch.InterlacedStopsAndCuts | src/olympus.rs:300-311 | A frame that stops the decoder, and one of whose second row it reads four samples. |
| OlympusDispatch.SecondRowLost | src/olympus.rs:300-311 | A frame that is sent there, is decoded and does not come back. |
| OlympusDispatch.PackedRowsAgreeIff | src/olympus.rs:286-299 | When the dispatch and the row reader count the same bytes in a row, and when such rows decode. |
| OlympusDispatch.PackedRowsDisagree | src/olympus.rs:286-299 | A row they count differently and that does not decode. |
| OlympusDispatch.PackedRoute | src/olympus.rs:286-299 | When the packed route succeeds, which samples it yields and how many. |
| OlympusDispatch.InStepIff | src/olympus.rs:286-299 | For which sizes those are the samples of the buffer's own rows, whatever the buffer. |
| OlympusDispatch.OutOfStep | src/olympus.rs:286-299 | For every width from 11 on that ends in 1 and two rows or more, a buffer whose second row is read a byte early. |
| OlympusDispatch.Decompress | src/olympus.rs:278-336 | What becomes of every buffer of every size. |
| OlympusDispatch.Routes | src/olympus.rs:286-319 | Which length and width goes where; 3664 columns go to the interlaced decoder. |
| OlympusDispatch.Failures | src/olympus.rs:286-328 | On each route, the buffers that give no samples. |
| OlympusDispatch.PackedFrame | src/olympus.rs:286-299 | A packed frame of whole tens comes back through the dispatch. |
| OlympusDispatch.WordsFrame | src/olympus.rs:300-318 | So does a wide frame of whole eights, packed with its words reversed. |
| OlympusDispatch.InterlacedOutcome | src/olympus.rs:300-311 | Of a frame in two fields, the even rows and the odd samples before the cut come back. |
| NikonCurve.CompressionInfo.Interpolate | src/nikon.rs:380-384 | The in-place loop, which overwrites the table it reads its knots from, equals pure floor interpolation; every index is in range. |
| NikonCurve.KnotsKept | src/nikon.rs:380-384 | No knot is changed. |
| NikonCurve.BetweenKnots | src/nikon.rs:381-383 | Between two positions the table is their weighted mean, rounded down. |
| NikonCurve.EntryIsFloor | src/nikon.rs:381-383 | Every entry is the greatest number whose multiple by the step does not exceed the sum of its two samples weighted by distance. |
| NikonCurve.LineKept | src/nikon.rs:381-383 | Samples on a line through 0 give that line. |
| NikonCurve.NeverTruncated | src/nikon.rs:383 | The cast to 16 bits loses nothing. |
| NikonCurve.CurveRisesIff | src/nikon.rs:380-406 | When nondecreasing samples give a nondecreasing table, exactly. |
| NikonCurve.HeaderCurveRisesIff | src/nikon.rs:365-406 | The same condition on what the header says: range and sample count. |
| NikonCurve.HundredSamplesFall | src/nikon.rs:365-406 | A header whose table falls. |
| NikonCurve.NoSamplesStop | src/nikon.rs:388-402 | Exactly which accepted headers make the program look up index -1. |
| NikonCurve.BuildCurve | src/nikon.rs:301-411 | Which headers are refused and how; otherwise every entry of the table, the predictors, the code table, black and white levels. |
| NikonCurve.RefusedHeaders | src/nikon.rs:301-363 | Which headers are refused with which error. |
| NikonCurve.HuffmanCases | src/nikon.rs:333-359 | The code table of every header. |
| NikonCurve.KnotHeader | src/nikon.rs:365-379 | The header with knots: its samples, its step and its range. |
| NikonCurve.KnotTable | src/nikon.rs:380-406 | Every entry of the table that knots give, without mention of how it is computed. |
| NikonCurve.TableHeader | src/nikon.rs:388-406 | Headers with a table: every entry, the last one repeated, behind the skipped bytes of one of them. |
| NikonCurve.LosslessHeader | src/nikon.rs:345-406 | The lossless header has no table. |
| SonyKeystream.RingStep | dcraw/sony_clear.c:25-26 | Two slots of the ring give the next word of the recurrence, and overwriting one keeps the last 127 words. |
| SonyKeystream.SeedPad | dcraw/sony_clear.c:18-24 | The first 127 slots hold the seed of the recurrence. |
| SonyKeystream.NextIs | dcraw/sony_clear.c:19 | The generator multiplies by 5^11 and adds 1, modulo 2^32. |
| SonyKeystream.ShiftInIsWindow | dcraw/sony_clear.c:20-22 | The shifts take 32 bits, one bit in, out of the 64 of two words. |
| SonyKeystream.HtonlDigits | dcraw/sony_clear.c:23-24 | Byte j of a word in network order is its byte 3 - j. |
| SonyKeystream.SeedStart | dcraw/sony_clear.c:18-20 | The first 127 bits of the seed are those of the generator. |
| SonyKeystream.SeedRecurrence | dcraw/sony_clear.c:20-22 | From there on each bit is the exclusive or of those 127 and 63 bits before it: the recurrence of the keystream, bit by bit. |
| SonyKeystream.KeyRecurrence | dcraw/sony_clear.c:23-26 | The keystream is the seed in network order, and then each word the exclusive or of those 127 and 63 words before it. |
| SonyKeystream.KeyOfZero | dcraw/sony_clear.c:18-24 | The first keystream word of key 0. |
| SonyKeystream.SonyDecrypt | dcraw/sony_clear.c:13-27 | Word t of the data is xored with keystream word 127 + t, for every length, and nothing else changes. |
| SonyKeystream.EncryptedBits | dcraw/sony_clear.c:26 | Every bit of the data is inverted exactly where keystream word 127 + t has a 1. |
| SonyKeystream.EncryptedTwice | dcraw/sony_clear.c:13-27 | Twice with the same key is the identity. |
| SonyKeystream.DecryptTwice | dcraw/sony_clear.c:13-27 | Two runs in place restore the data. |
| FujiTurn.NoCollision | dcraw/fujiturn.c:72-73 | No two pixels are written to one cell. |
| FujiTurn.UnsignedTests | dcraw/fujiturn.c:72-74 | The unsigned comparisons accept exactly the coordinates inside the frame. |
| FujiTurn.Scatter | dcraw/fujiturn.c:70-79 | Every cell holds its one source pixel, or black when that lies outside the image. |
| FujiTurn.CellOfPixel | dcraw/fujiturn.c:72-76 | The cell of a pixel shows it. |
| FujiTurn.CellOfNone | dcraw/fujiturn.c:68-76 | A cell whose pixel would lie outside the image is black. |
| FujiTurn.NeighboursInside | dcraw/fujiturn.c:86-92 | The four cells that are meant lie inside the intermediate image, in the row above, the same row and the row below. |
| FujiTurn.LeftNeighbourInsideIff | dcraw/fujiturn.c:91 | The left one is taken from inside exactly where addresses are no wider than the index, or the row is even; then it is the cell meant. |
| FujiTurn.FrameSafeIff | dcraw/fujiturn.c:84-92 | For which frames that holds of all cells. |
| FujiTurn.RowsShow | dcraw/fujiturn.c:84-97 | Every cell of the rows written: the pixel, or channel by channel the mean, rounded down, of the cells above, left, below and right, or on the border the cell above. |
| FujiTurn.MeanBetween | dcraw/fujiturn.c:91-92 | The mean lies between the least and the greatest of the four. |
| FujiTurn.BorderRepeatsRowAbove | dcraw/fujiturn.c:85-97 | A border cell that is not written shows what the cell above it shows, since the row buffer is reused. |
| FujiTurn.Gather | dcraw/fujiturn.c:84-98 | For both widths of addresses: fails exactly for the frames with a cell that is not safe, and otherwise writes exactly the rows so described. |
| FujiTurn.Turn | dcraw/fujiturn.c:70-98 | Unless it fails, every source pixel whose turned position lies in the output is shown there unchanged. |
| MetadataIterator.Iterator.FromDirectory | src/metadata.rs:186-193 | The iterator over one directory will yield its entries. |
| MetadataIterator.Iterator.FromContainer | src/metadata.rs:195-202 | The iterator over a container will yield the entries of all directories. |
| MetadataIterator.Iterator.Next | src/metadata.rs:162-184 | Yields the first remaining entry and leaves the rest; nothing only when none is left, with the stack empty; at most one iterator is ever interrupted. |
| MetadataIterator.Drain | src/metadata.rs:162-184 | Asking until there is no more yields all entries in order and leaves the iterator exhausted. |
| MetadataIterator.EntryPosition | src/metadata.rs:167-175 | Where each entry of each directory comes in that order. |
| MetadataIterator.EmptyDirectoriesSkipped | src/metadata.rs:167-178 | An empty directory anywhere changes nothing. |
| MrwContainer.MrwContainer.Load | src/minolta.rs:570-598 | The walk keeps the last block of each known name, or fails on a short read; the version is read from the kept PRD block. |
| MrwContainer.WalkFindsBlocks | src/minolta.rs:576-588 | Serialised blocks are found in order and at their places, up to a last one without payload. |
| MrwContainer.FileWalk | src/minolta.rs:571-588 | A whole file: every block is found if and only if there is none or the last one has a payload. |
| MrwContainer.EmptyBlockMissed | src/minolta.rs:571-588 | A file of which no block is found. |
| MrwContainer.HeadersTile | src/minolta.rs:577-579 | Each block starts where the one before it ends, and together they tile the bytes from the first on. |
| MrwContainer.LoadFile | src/minolta.rs:570-672 | After a file is loaded, the raw data offset is where its last block ends, what lies there is the raw data, and the last reached block of each name is kept. |
| MrwContainer.KeptByName | src/minolta.rs:486-490 | The letters by which a block is kept as PRD, TTW, WBG, RIF or PAD are bytes 1 to 3 of its name. |
| MrwContainer.NoneKept | src/minolta.rs:580-587 | Without a block of those letters nothing is kept. |
| MrwContainer.U32Is | src/minolta.rs:474-478 | The length of a block in both byte orders. |
| MrwContainer.LastOneWins | src/minolta.rs:580-587 | The kept block of a name is the last that carries it. |
| NumberList.SplitUndoesJoin | libopenraw-testing/src/lib.rs:138-143 | Splitting at spaces undoes joining with them. |
| NumberList.JoinUndoesSplit | libopenraw-testing/src/lib.rs:161 | Joining the pieces of a text gives the text, and no piece has a space. |
| NumberList.DecimalCanonical | libopenraw-testing/src/lib.rs:138-142 | Numbers are printed without leading zeros. |
| NumberList.ListTexts | libopenraw-testing/src/lib.rs:137-147 | The text of every list: the word for none, a number, two parts with a space between. |
| NumberList.ParsedIff | libopenraw-testing/src/lib.rs:164 | Exactly which texts are read as a number: its digits, perhaps behind zeros, perhaps behind a plus sign. |
| NumberList.ReadAsIff | libopenraw-testing/src/lib.rs:151-168 | Exactly which texts are read as a list. |
| NumberList.FromList | libopenraw-testing/src/lib.rs:151-168 | The loop parses all pieces or reports the text malformed. |
| NumberList.ListRoundTripIff | libopenraw-testing/src/lib.rs:132-168 | What is printed is read back, for no list and for every list but the empty one. |
| NumberList.EmptyListText | libopenraw-testing/src/lib.rs:132-168 | The empty list is printed as a text that is malformed. |

## Left out

- File and stream access: files are byte sequences with a position. Past the end the Canon bit buffer reads 0xff, which
  is what `fgetc` gives when cast to a byte; the port reports an error there instead.
- Parsing of the CIFF structure, choice of table and size, and the test for low-order bits in `dcraw/decompress.c`.
- CanonLowbits.MergeLowbits: the statement in `dcraw/decompress.c` reads and writes its index unsequenced and has no
  defined meaning; the model takes the one the port fixes, with 0 behind the last sample of a block.
- CanonDecoder.Decompress: differences, bases and the carry are unbounded integers. On encoded images every base is a
  sample and every carry a difference of two of them, so the C `int` is wide enough; on other input it may not be.
- RowReader.UnpackFromReader: block sizes are unbounded integers; the `u32` arithmetic agrees for widths below 2^31.
- Unpackers.UnpackBento16: the external bit reader is modelled only as reading bits most significant first and failing
  when they run out.
- OlympusDecoder.DecodeInterlaced: rows run one after the other, not in parallel.
- OlympusDispatch.Decompress: sizes for which the `u32` products do not wrap; the decompressor behind the last branch is
  not part of this model.
- FujiTurn.Scatter: sizes below 0x3000_0000, so that no unsigned coordinate is ambiguous.
- FujiTurn.Gather: frames of at most 2^32 cells. Finding the two sizes in the first row of the image is not part of this
  model.
- CanonTables.TablesValid: the symbol lists are the program's data; that they have the symbols an image needs, and the
  code of the documented one, is proved about them.
- SonyKeystream.SonyDecrypt: a little-endian machine. Where the keys lie in the file is not part of this model.
- NikonCurve.BuildCurve: the file behind the two header bytes is given as 16-bit words. Finding the header, the Huffman
  decoding and the packed NEF loop are not part of this model.
- MrwContainer.MrwContainer.Load: the version is kept as bytes; reading values out of the blocks is left out.
- MetadataIterator.Iterator.Next: the directory iterators are finite sequences; how entries become values is left out.
- NumberList.ListRoundTripIff: lists of unsigned integers; lists of floating-point numbers are left out.
- Camera tables, colour, thumbnails, rendering, lossless JPEG, the other makers' decompressors, TIFF and MP4 containers,
  the C and Python interfaces and the command-line tools.
