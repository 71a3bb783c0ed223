# Rebuilding a Zelda 64 ROM, verified

libzelda64 takes a Nintendo 64 Zelda ROM apart by its file table (DMADATA), lays the files out anew,
compressed or decompressed, writes them, pads the result, writes a new table over it, and stores the
CIC-6105 check code. This project models that pipeline over in-memory buffers and proves that it does
what it is for: no file is lost or changed on the way.

The model has the form of the source. Buffers (`Io.Buffer`), the error object (`Io.Error`), the open
ROM (`Rom.OpenRom`) and the check code state (`Cic.CheckCode`) are classes; the pumps, the planners, the
writer, the chunked search, the bound and the table-driven checksum are methods with the loops of the C
code, each proved against a specification:

* `Plan.Plan` says where each file of a layout goes, what its row is, and what image results.
  `Write.RomWritten` says how `write_rom` leaves the output: it succeeds *exactly* when every file can be
  had, everything fits, and the image has a check code, and then the image is `Plan.Finished`.
* `Layout.JobFor` says which bytes an operation asks for, in terms of a one-shot codec. `Pump.Done` says
  how each pump leaves the output: those bytes at that position, or the one error there is reason for.
  An extent that reaches out of the source ROM is read as far as the ROM goes, and what its chunk held
  before for the rest: `Rom.Fetched` says what may come of that, `Layout.JobFits` and `Write.PlanOf` say
  which jobs and plans that allows, and the writer is proved for every extent. For extents inside the ROM
  there is just one plan (`Write.PlanIsUnique`).
* `Dma.FirstSignature` and `Dma.TableAt` are the naive search and the one-shot parser that the chunked
  search and the 128-entry loader refine.
* `Crc32c.Crc` is the bit-at-a-time checksum of section 12.1 of RFC 3720 (polynomial 0x82F63B78 in
  reflected form), and `Cic.Fold` runs over all words at once; `Cic.IsCheckCode` is the check code in closed form,
  by sums over the words of the image.
* `Rom.FileOf` is the file a reader gets for an index: the observer by which "the same file" is meant.

The theorems about the whole pipeline are in `Rebuild` (said of whatever `write_rom` leaves), on top of
`Placement`, `Reopen`, `Preserve`, `Decoy`, `RoundTrip`, `Bound` and `Tiling`. `Client` chains the public
calls and says what their caller gets. `Example` holds a family of ROMs that meet the hypotheses of all that, and
the inputs at which the code does not do what it says.

libyaz0 is not part of the repository. It is a `Yaz0.Codec` that is passed in, with a contract
(`Yaz0.Contract`): decoding undoes encoding, bytes after the end of a stream do not matter, the header
tells the size, the bound holds, every call moves something or ends, and an ended stream stays ended. Two
of its clauses are promised by no code in the repository, and are assumptions about libyaz0: that the end
is reported in the call that sends the last byte (`Yaz0.WantsMore`), and that a decompressor with input and
room to spare does not keep a complete file back (`Yaz0.DecompressCall`). `Yaz0Literal` is a codec with the
header and literal groups only, and it keeps the contract.

## Model

| member | source | states |
|---|---|---|
| Rebuild.ThereAndBack | lib/layout_write.c:329-447 | A ROM as sparse writing leaves it, all files stored and readable, VROM ranges apart, MAKEROM a multiple of 16 long: compressed densely (any padding) into an ample buffer, one whose length is a multiple of 16 or no less than a promised bound, and then decompressed sparsely (any padding), it has its signature at the same offset, there the same table entry for entry, and the same files byte for byte, but for the check code in file 0; whether it opens can be seen of the first source (`Decoy.OpensAsSeen`) |
| Rebuild.ThereAndOpen | lib/rom_open.c:28-59 | In between, the compressed ROM has its signature at that offset too, opens as can be seen of its source, and its decompress plan is one that `DecompressedRom` is about |
| Rebuild.SucceedsExactly | lib/layout_write.c:329-447 | Writing a readable ROM with the known boot code, decompressed or compressed, reports OK if and only if files, padding and table fit and the buffer holds the range of the check code; OUT_OF_RANGE if something does not fit, and else TRUNCATED |
| Rebuild.DecompressedRom | lib/layout_write.c:329-447 | After a successful decompression, sparse (VROM ranges apart) or dense (MAKEROM a multiple of 16 long), every file but 0 and 2 reads the same through the written table, deleted files stay deleted and empty ones empty; file 0 differs in its check code at most, file 2 is the new table |
| Rebuild.CompressedRom | lib/layout_write.c:329-447 | After a successful dense compression of a ROM whose MAKEROM is a multiple of 16 long, and which may hold compressed files already: every stored file reads the same if its rounded extent ends inside the buffer, and else as nothing; every compressed one reads as its copy; in an ample buffer no extent ends behind it, and a ROM with all files stored keeps all of them |
| Rebuild.AmpleHoldsAll | lib/layout_write.c:396-409 | No compressed extent ends behind a buffer whose length is a multiple of 16 or no less than a promised positive bound |
| Example.ShortBufferLosesFile | lib/layout_write.c:396-409 | A ROM that opens, and a successful write of it into a buffer just long enough, whose last file can not be read any more |
| Example.CopyLosesFile | lib/rom_compress.c:54-60 | A ROM with a compressed file, and a successful write of it into an ample buffer, after which that file reads as the first byte of its compressed form |
| Rebuild.WrittenOpens | lib/rom_open.c:28-59 | For any layout with a copied head: the written table is found at entry 2's VROM start exactly when BOOTCODE is not empty and a dense MAKEROM is a multiple of 16 long; then it parses to what was written, and the ROM opens with it exactly when there is no earlier signature, which with files that lie apart is a matter of the copied MAKEROM and BOOTCODE |
| Rebuild.StoredCodeIsRight | lib/layout_write.c:429-440 | The two words at 0x10 of every successfully written image, high word first, are the check code of that very image, which they are in closed form (`Cic.IsCheckCode`) |
| Rebuild.RebuiltOpens | lib/rom_dma.c:105-184 | A ROM that was decompressed or compressed, with a BOOTCODE that is not empty, has its signature and the written table where its source had them, and the source's bytes before that but for the check code; it opens there if and only if no entries of the source there pass for a table in a ROM of the new length, and the check code does not begin one, which can be excluded by one word of the source |
| Decoy.FirstExactly | lib/rom_dma.c:105-184 | With the same bytes before a signature but for the check code, it is the first exactly when the check code's entry does not begin one and none of the source's entries behind that passes for one at the new length |
| Decoy.CodeStaysHarmless | lib/rom_dma.c:143-176 | The check code, whatever it is, can only begin a signature if the word at 0x24 is 0x10 |
| Decoy.NoneInShorter | lib/rom_dma.c:84-103 | A ROM without an earlier signature has none that passes in an output that is no longer |
| Decoy.HeadFinished | lib/layout_write.c:347-440 | The bytes before the table of a finished image are MAKEROM and BOOTCODE as they are copied, but for the check code |
| Example.DecoyTakesOver | lib/rom_dma.c:84-103 | A ROM that opens with its table, and a successful write of it into a larger, ample buffer, which has the written table where it was and opens with another |
| Example.SomeRomComesBack | lib/layout_write.c:329-447 | A ROM, a codec and two writes that meet every hypothesis of `ThereAndBack`: it opens, is compressed, opens, is decompressed, and opens |
| Client.DecompressBuffer | src/decompress.c:28-55 | Opening and decompressing a buffer with any packing and padding: known exactly when it can be opened, and else the error says why not; then, if it can be read and packed that way, OK, OUT_OF_RANGE or TRUNCATED is reported exactly as `Rebuild.Report` says, every file of the source is in the output, and the output has its table where the source had it and opens as can be seen of the source |
| Client.CompressBuffer | lib/rom_compress.c:92-128 | The same for opening and compressing densely, if MAKEROM is a multiple of 16 long: each file is kept as `Preserve.Kept` says, and all of them if they are stored and the output is ample |
| RoundTrip.CompressThenDecompress | lib/rom_decompress.c:43-69 | The round trip, said of finished images |
| RoundTrip.CompressedIsSigned | lib/rom_dma.c:50-103 | The compressed ROM has its signature where the original had it |
| RoundTrip.CompressedIsReadable | lib/rom_read.c:142-183 | Every file of the compressed ROM can be read and its ranges are still apart, so that it can be decompressed in turn |
| RoundTrip.TableIsThirdFile | lib/layout_write.c:420-427 | File 2 of an open ROM is its own table, printed |
| Preserve.DecompressKeepsFiles | lib/layout_write.c:347-446 | Decompression, sparse or dense, keeps every file, although files, padding, table and check code share one buffer |
| Preserve.CompressKeepsFiles | lib/layout_write.c:347-446 | What dense compression makes of every file: a stored one reads the same if and only if its extent, rounded up to 16, does not end behind the buffer, and else as nothing; a compressed one reads as its copy; deleted ones stay deleted |
| Preserve.StoredFilesKept | lib/layout_write.c:396-409 | With all files stored, all are kept if and only if no extent ends behind the buffer |
| Preserve.EvenBufferHoldsAll | lib/layout_write.c:396-409 | No extent does when everything fits and the buffer is a multiple of 16 long |
| Preserve.SizeInside | lib/layout_write.c:405-409 | Nor does any when the reported size is no more than the buffer's |
| Preserve.CopiesThatRead | lib/layout_write.c:397-402 | A copied compressed file is written with `rom_end` 0, so its row takes it for stored: where its VROM range is no longer than its extent it reads the same if and only if it is the beginning of its own compressed form; where it is longer, only if its compressed form is its beginning and it is what it decompresses to itself |
| Preserve.LongCopyReads | lib/layout_write.c:397-402 | In that case it reads the same if and only if it is the copied bytes followed by what the plan writes behind them |
| Preserve.PackedRowEnds | lib/layout_write.c:401-401 | A dense compressed entry's `rom_end` is neither 0 nor UINT32_MAX, and lies within the reported size |
| Preserve.CheckCodeIsFixed | lib/layout_write.c:429-440 | Storing the check code changes neither it nor the boot code |
| Preserve.DecompressJob | lib/rom_decompress.c:43-69 | The decompress plan asks for every readable file's own bytes, stored or compressed |
| Preserve.CompressJob | lib/rom_compress.c:40-71 | The compress plan copies the first three files and compresses every other stored one |
| Preserve.DecompressedApart | lib/layout_write.c:369-371 | Decompressed files lie apart from each other and from the table: sparse ones when their VROM ranges do, dense ones when MAKEROM is a multiple of 16 long |
| Preserve.CompressedApart | lib/layout_write.c:405-409 | So do compressed ones, densely packed, and the table lies on its own file |
| Preserve.PackedRowReads | lib/rom_read.c:51-108 | A compressed file followed by alignment bytes within its extent reads as what it decodes to |
| Reopen.TableIsFoundAgain | lib/rom_dma.c:105-184 | In the finished image the signature is at entry 2's VROM start if and only if BOOTCODE is not empty and a dense MAKEROM is a multiple of 16 long, and then the table there is the written one |
| Reopen.SignatureOfRows | lib/rom_dma.c:44-103 | The same about the first three rows |
| Reopen.PlannedHead | lib/rom_compress.c:63-66 | Both planners copy the first three files of an open ROM whole, in a chain of adjacent ranges whose third is 16 bytes per entry long |
| Reopen.DenseTableInPlace | lib/layout_write.c:420-423 | With MAKEROM a multiple of 16 long the third file starts where the table is written |
| Reopen.SignedHead | lib/rom_dma.c:50-103 | What the signature says of the first three entries of a found table |
| Reopen.PrintedLoaded | lib/layout_write.c:276-300 | A printed table loads back entry for entry, wherever it is |
| Placement.ShortIsUnwrapped | lib/layout_write.c:396-409 | In an output of at most 0xFFFFFFF0 bytes no size or position wraps |
| Placement.CursorIsExact | lib/bytes.h:67-70 | The cursor stands at the next multiple of 16 from the file's start on, without wrapping |
| Placement.FileWithinSize | lib/layout_write.c:405-409 | Every file ends within the reported size |
| Placement.SizeIsAttained | lib/layout_write.c:405-409 | And some file's rounded extent ends there, unless nothing is written |
| Placement.DenseTiles | lib/layout_write.c:369-371 | A dense file starts at the sum of the aligned sizes before it, and that sum is the cursor and the ROM size |
| Placement.DenseIsApart | lib/layout_write.c:369-371 | Dense files are pairwise disjoint |
| Placement.FilePlaced | lib/layout_write.c:347-410 | A file's bytes are still in the image when all files have been written |
| Placement.TabledKeeps | lib/layout_write.c:411-427 | Padding and the table leave every range alone that is in the files' part and off the table |
| Placement.FileFinished | lib/layout_write.c:411-440 | A file off the table and the check code is in the finished image, byte for byte |
| Placement.TableFinished | lib/layout_write.c:420-427 | So is the table, in its place |
| Tiling.DenseFilesTile | lib/layout_write.c:369-409 | Every byte below the reported size of a dense ROM belongs to exactly one file's extent, which begins and ends at multiples of 16 |
| Tiling.DenseRowKind | lib/rom_stat.c:26-36 | The kind of every dense row is the one its operation and emptiness dictate |
| Tiling.PaddedLength | lib/layout_write.c:411-418 | A padded image of at most 2^31 bytes is the least power of two long that holds it |
| Tiling.PaddingFinished | lib/layout_write.c:302-327 | Every byte behind the files is 0, or the low byte of its offset for a ramp, in the finished image |
| Bound.DenseBoundIsSound | lib/layout_bound.c:139-170 | When a dense bound is promised for files that are within their own bounds, no position wraps and a buffer of that length is enough if and only if the bound is not 0; it is 0 only for padding on top of more than 2^31 bytes |
| Bound.SparseBoundIsSound | lib/layout_bound.c:90-121 | When a sparse bound is promised for such files, no position wraps, the unpadded size is within it, and a buffer of that length is enough if there is no padding or the bound is a power of two or above 2^31; where the bound is the exact size, only then |
| Bound.BoundIsEnough | lib/layout_bound.c:123-171 | For such files a write into a buffer of the promised length never reports OUT_OF_RANGE and returns no more than the bound: dense with a bound that is not 0; sparse without padding, or with a bound that is a power of two or above 2^31 |
| Bound.BoundedExactly | lib/layout_bound.c:67-88 | A file is such a file exactly when it is no longer than its entry's bound and that is at most 0xFFFFFFF0; copied and compressed ones are never longer, and a compressed one that is decompressed is as long as its header tells |
| Example.HeaderBeyondRange | lib/layout_bound.c:67-88 | A ROM that opens, with a file whose header tells more than its VROM range, whose bound is too short for its decompressed image, whatever the packing |
| Example.BoundRoundsToNothing | lib/layout_bound.c:139-163 | A ROM that opens, with a stored file whose bound is rounded up to 0 when compressed, so that the ROM's bound leaves that file out, whatever the packing |
| Bound.DecompressBoundIsExact | lib/layout_bound.c:134-137 | For a decompressed ROM the sparse bound is the exact unpadded size, so a write into it fits if and only if it is not padded or the bound is a power of two or above 2^31 |
| Bound.DenseDecompressBoundIsExact | lib/layout_bound.c:139-170 | The dense bound of a decompressed ROM is its size, or with padding the power of two that the size is rounded up to |
| Bound.BoundIsAttained | lib/layout_bound.c:90-170 | No bound is larger than it has to be: where every file is as long as its own bound, it is the size of the written ROM, rounded up to a power of two only for a padded dense one |
| Bound.OnlyLiveCount | lib/layout_bound.c:140-146 | Deleted and empty entries change neither bound nor error |
| Bound.SumIsTotal | lib/layout_bound.c:139-163 | A dense bound is the total of the entries' bounds, each rounded up to 16; its error is that of the first entry that has none, or OUT_OF_RANGE at the first that makes the total too large |
| Bound.MaxIsFurthest | lib/layout_bound.c:90-121 | A sparse bound is the furthest end of any entry, which one of them has; its error is found in the same way |
| Bound.EntryBoundIsExtent | lib/layout_bound.c:27-65 | What is copied is bounded by what the file takes up in the ROM, by its table entry; what is compressed by what the codec promises for that, unless this is UINT32_MAX or more |
| Bound.EntryBoundIsRange | lib/layout_bound.c:67-88 | What is decompressed is bounded by its VROM range, in 32 bits |
| Bound.PaddedWithin | lib/bytes.h:72-81 | A size is padded to no more than a bound that is a power of two or above 2^31, and to more than any other bound that it reaches |
| Example.PaddedBoundFallsShort | lib/layout_bound.c:134-137 | A ROM that opens, whose sparse bound is too short for its padded image |
| Example.PaddedBoundIsNothing | lib/layout_bound.c:148-170 | A ROM that opens, with a file of 2^31 bytes, whose dense bound is 0 if it is padded |
| Bound.LengthIsBounded | lib/layout_bound.c:27-88 | What is written for one entry is no longer than its bound |
| Bound.LayoutEntryBound | lib/layout_bound.c:67-88 | Reports the entry's bound, or the error for which there is none |
| Bound.LayoutMax | lib/layout_bound.c:90-121 | Reports the sparse bound or the first error |
| Bound.WriteBound | lib/layout_bound.c:123-171 | Reports the bound for both packings and any padding, or the first error |
| Bound.DenseBound | lib/layout_bound.c:139-163 | Its dense loop: the total of the rounded bounds of the entries that are written, or the first error |
| Write.WriteBuffer | lib/layout_write.c:481-511 | Leaves the buffer as `RomWritten` says, for a plan of the layout |
| Write.WriteRom | lib/layout_write.c:329-447 | Succeeds exactly when all files can be had, everything fits and there is a check code; then the image is the finished one and the size that of the padded ROM; else the error is that of the first file that does not fit (OUT_OF_RANGE) or cannot be had (its own), then OUT_OF_RANGE for padding and table, then the reason why there is no check code; for every layout, also where extents reach out of the source ROM |
| Write.PlanIsUnique | lib/layout_write.c:374-391 | Where no extent reaches out of the source ROM the layout allows just one plan, and so just one outcome |
| Write.WriteFiles | lib/layout_write.c:345-410 | Leaves the image, the table and the size of the plan, or fails exactly when a file cannot be had or does not fit, with the error of the first such file |
| Write.WriteRow | lib/layout_write.c:347-409 | One round of that loop takes the plan's state from entry i to entry i + 1, or stops with the error of a file that cannot be had or does not fit |
| Write.WriteEntry | lib/layout_write.c:374-391 | Does a job the entry's operation asks for, at the given position, wherever its extent lies |
| Layout.ReachableFits | lib/rom_read.c:29-49 | An entry whose extent lies in the ROM asks for exactly one job |
| Layout.JobOfFile | lib/layout_write.c:34-255 | What each operation writes for a file by its table entry: the stored bytes, what they are compressed to, or what they decompress to; nothing for an empty file |
| Write.PadFile | lib/layout_write.c:302-327 | Writes exactly the padding up to the next power of two, or fails exactly when it does not fit; whatever the chunks |
| Write.FillChunk | lib/layout_write.c:313-318 | A chunk of zeros or of the low bytes of absolute offsets |
| Write.WriteDmadata | lib/layout_write.c:276-300 | Writes exactly the printed table, or fails exactly when it does not fit; whatever the chunks |
| Write.PrintEntry | lib/layout_write.c:286-292 | Prints one entry behind what is in the chunk already |
| Write.StoreCheckCode | lib/layout_write.c:429-440 | Stores the check code of the image so far at 0x10, high word first, or reports why there is none |
| Pump.CopyRomFile | lib/layout_write.c:34-68 | Writes the file's storage bytes, once and in order, at the position, or fails exactly when they do not fit; of an extent that reaches out of the ROM, as many bytes, beginning with those that are in it |
| Pump.CompressRomFile | lib/layout_write.c:86-161 | Writes exactly the one-shot encoding of the file's storage, returns its length, and terminates, or fails exactly when it does not fit; of an extent that reaches out of the ROM, the encoding of as many bytes, beginning with those that are in it |
| Pump.CompressNext | lib/layout_write.c:120-157 | One chunk more is read, fed and written behind what was written, and less is left to do |
| Pump.CompressChunk | lib/layout_write.c:138-156 | The inner loop takes all of one chunk, drops and repeats nothing, and leaves less to do |
| Pump.DecompressRomFile | lib/layout_write.c:180-255 | Writes exactly what the file decodes to, returns its length, and terminates; or fails with DECOMPRESS_ERROR where it does not decode and OUT_OF_RANGE where it does not fit; of an extent that reaches out of the ROM, the same of as many bytes, beginning with those that are in it |
| Pump.DecompressNext | lib/layout_write.c:214-251 | One chunk more is read, fed and written, and less is left to do |
| Pump.DecompressChunk | lib/layout_write.c:232-250 | The inner loop of decompression, which may call once more on a stream that has ended |
| Layout.CompressRom | lib/rom_compress.c:40-71 | Fills the array with the compress plan |
| Layout.DecompressRom | lib/rom_decompress.c:43-69 | Fills the array with the decompress plan |
| Open.OpenBuffer | lib/rom_open.c:28-130 | Opens a buffer if and only if it is small enough, has a signature, and its first one's entry 0 leads to the known boot code; the open ROM then has the table there; else it reports OUT_OF_RANGE, NO_DMADATA or TRUNCATED, INVALID_ROM, TRUNCATED or UNSUPPORTED_CIC, each for its own reason |
| Open.FirstDecides | lib/rom_open.c:45-56 | The first signature alone decides that |
| Rom.OpenRom.ReadDmadata | lib/rom_dma.c:186-226 | Finds the first signature if there is any, and loads exactly the table there; changes nothing otherwise |
| Rom.LoadTable | lib/rom_dma.c:204-221 | The 128-entry loader never truncates on a table that fits, and entry k is the decoding of the 16 bytes at 16 * k |
| Rom.OpenRom.StatFile | lib/rom_stat.c:77-141 | Method, extent and size of a file, or the error for which there are none |
| Rom.StatExactly | lib/rom_stat.c:26-141 | Method, extent and size by the four words of the entry and the Yaz0 header, or which error and when |
| Rom.StatFacts | lib/rom_stat.c:107-137 | What a successful stat implies about sizes and the Yaz0 header |
| Rom.OpenRom.ReadBytes | lib/rom_read.c:29-49 | Reads from within the file only; nothing past its end |
| Rom.OpenRom.ReadStorage | lib/rom_read.c:110-140 | A window of the bytes as stored |
| Rom.ReadsWhatIsThere | lib/rom_read.c:29-49 | How many bytes a read finds: as many as there are behind the offset in the part of the file that is in the ROM |
| Rom.OpenRom.Decompress | lib/rom_read.c:51-108 | If its loop ends at all: fills the buffer with what the part of the extent in the ROM decodes to, which is all of it for an extent inside the ROM; reports DECOMPRESS_ERROR exactly when that does not decode |
| Rom.OpenRom.ReadFile | lib/rom_read.c:142-183 | Gives the file, or what is in the ROM of it, or the error for which there is none, whenever reading ends |
| Rom.OpenRom.DecompressNext | lib/rom_read.c:77-104 | One round reads and decompresses the next chunk behind the earlier ones, and has one round less to go |
| Rom.ReadingEnds | lib/rom_read.c:77-104 | For every codec, reading a compressed file ends if and only if its extent lies in the ROM, the part that does decodes, or the codec gives up |
| Unpack.EndableReturns | lib/rom_read.c:77-104 | The loop ends, whatever the codec, on a whole extent and on a part that decodes |
| Example.LiteralReading | lib/rom_read.c:77-104 | With the literal codec reading ends if and only if the extent lies in the ROM or the part that does decodes |
| Yaz0Literal.LiteralReturns | lib/rom_read.c:77-104 | On anything else that loop is still going after any number of rounds |
| Example.ReadingHangs | lib/rom_read.c:77-104 | A ROM that opens, with a file that has a size and is read for ever |
| Dma.Find | lib/rom_dma.c:105-184 | Finds the first signature if and only if there is one; TRUNCATED instead of NO_DMADATA if and only if a possible first entry in a chunk before the last has no room for the next two |
| Dma.FindInChunk | lib/rom_dma.c:136-177 | The same within one chunk, with the error left set on the way |
| Dma.FindAt | lib/rom_dma.c:138-176 | The same at one position |
| Dma.CheckCandidate | lib/rom_dma.c:143-176 | Confirms a candidate if and only if the signature is there |
| Dma.SignatureWords | lib/rom_dma.c:44-103 | A signature by the twelve words of its entries, and the table that it announces |
| Dma.CutOffExactly | lib/rom_dma.c:105-184 | When the search was stopped early: a possible first entry less than 48 bytes before the end, in a block of 1024 bytes before the last |
| Dma.FoundEntry | lib/rom_dma.c:204-221 | Entry k of a found table decodes the 16 bytes at offset + 16 * k |
| Dma.FoundTablePrints | lib/layout_write.c:276-300 | Printing a found table gives the bytes it was parsed from |
| Dma.ParsePrint | lib/rom_dma.c:32-42 | An entry's 16 bytes parse back to it |
| Dma.ParsePrintTable | lib/layout_write.c:276-300 | So does a printed table |
| Dma.PrintParseTable | lib/rom_dma.c:204-221 | And a parsed table prints back |
| Dma.PrintedWords | lib/layout_write.c:286-292 | The order of the four words of each entry of a printed table |
| Cic.CalculateCheckCode | lib/rom_cic.c:215-273 | Reports the check code of an image by its one-shot definition, or the error for which there is none |
| Cic.AbsorbImage | lib/rom_cic.c:254-270 | Feeding 1024-byte chunks amounts to feeding the whole range |
| Cic.CheckCode.Absorb | lib/rom_cic.c:165-207 | Takes in all words up to the end of the range, or refuses a size that is not a multiple of 4 |
| Cic.CheckCode.constructor | lib/rom_cic.c:137-163 | All six accumulators hold the seed |
| Cic.ChunkingIsIrrelevant | lib/rom_cic.c:254-270 | Any split into word-multiple chunks gives the same accumulators |
| Cic.CheckCodeIsClosed | lib/rom_cic.c:165-213 | The check code in closed form, without its accumulators: the high word is the low and the high word of seed * 2^32 + seed + the integer sum of all words, exclusive or with the seed and all words; the low word is the modular sum of the rotated words, the modular sum of the words against the boot code and what the second accumulator chooses, exclusive or |
| Cic.RunsThrough | lib/rom_cic.c:184-202 | All six accumulators after any number of words, the second by its recurrence over the words and their running sum |
| Cic.RotIsTurn | lib/bytes.h:62-65 | The rotation in plain arithmetic: d * 2^b mod 2^32 + d / 2^(32 - b) |
| Cic.CheckCodeErrors | lib/rom_cic.c:215-273 | Which error there is instead of a check code, and exactly when |
| Cic.CheckCodeDependsOn | lib/rom_cic.c:215-273 | The check code depends on bytes 0x40 to 0x100FFF and entry 0 only |
| Cic.ReadBootcode | lib/rom_cic.c:39-64 | The boot code, or INVALID_ROM or TRUNCATED exactly when MAKEROM or the image is too small |
| Cic.DetectCic | lib/rom_cic.c:80-114 | Succeeds exactly for the boot code with the known checksum, and else reports INVALID_ROM, TRUNCATED or UNSUPPORTED_CIC |
| Cic.KnownByChecksum | lib/rom_cic.c:66-78 | The known boot code is that of bytes 0x40 to 0xFFF with checksum 0x5FFC15B9, in an image and a MAKEROM of at least 0x1000 bytes |
| Cic.RotatesDigits | lib/bytes.h:62-65 | The rotation moves the low digits up and brings the high ones in below |
| Cic.RotatesByNothing | lib/bytes.h:62-65 | By 0 it changes nothing, because the shift to the right is masked |
| Crc32c.Checksum | lib/crc32c.c:69-76 | The table-driven loop computes the bit-at-a-time checksum, for every string and start value |
| Crc32c.TableIsRemainders | lib/crc32c.c:23-67 | All 256 table entries are the eight-step remainders of their indices |
| Crc32c.ComplementedRemainder | lib/crc32c.c:69-76 | The rule of section 12.1 of RFC 3720: the remainder of the string with its first 32 bits complemented, complemented |
| Crc32c.ResidueIsFixed | lib/crc32c.c:69-76 | A string followed by its own checksum, lowest byte first, always has the checksum 0x48674BC7 |
| Crc32c.ZerosExample | lib/crc32c.c:69-76 | 32 bytes of zeros have the checksum 0x8A9136AA, as in section B.4 of RFC 3720 |
| Crc32c.CrcContinues | lib/crc32c.c:69-76 | The checksum of a + b is that of b continued from that of a |
| Crc32c.BurstIsDetected | lib/crc32c.c:69-76 | Strings that differ only within up to four consecutive bytes have different checksums |
| Crc32c.AnyChecksum | lib/crc32c.c:69-76 | Behind any string there are four bytes that bring about any checksum, so that there are boot codes with the known one |
| Io.Buffer.Read | lib/io_buffer.c:112-130 | Short at the end of the data, and changes nothing else |
| Io.Buffer.ReadExact | lib/io.h:105-121 | TRUNCATED exactly on a short read; an error that is already set stays |
| Io.Buffer.Write | lib/io_buffer.c:132-148 | All bytes or OUT_OF_RANGE and none |
| Bytes.CeilPow2BySmearing | lib/bytes.h:72-81 | The smearing code gives the least power of two, and 0 for 0 and above 2^31 |
| Bytes.SmearDoubles | lib/bytes.h:74-79 | Each smearing step doubles the run of leading ones |
| Bytes.CeilPow2IsLeast | lib/bytes.h:72-81 | From 1 to 2^31 the result is the least power of two not below the argument |
| Bytes.CeilPow2Monotone | lib/bytes.h:72-81 | And monotone, so padding the bound and the size keeps their order |
| Bytes.ReadBigEndian | lib/bytes.h:28-46 | A written word reads back |
| Bytes.BigEndianRead | lib/bytes.h:28-46 | And four read bytes write back |
| Bytes.WordsCompareAsBytes | lib/bytes.h:28-36 | Words compare as their bytes do, first byte first, so that the order of the bytes is the only possible one |
| Bytes.ReadTwoWords | lib/bytes.h:48-60 | The eight bytes of a double word are its high and its low word |
| Bytes.OrByDigits | lib/rom_cic.c:165-213 | The operations on bits, modelled on numbers, digit by digit |
| Bytes.WriteU32 | lib/bytes.h:38-46 | Overwrites four bytes and nothing else |
| Bytes.WriteU64 | lib/bytes.h:48-60 | Overwrites eight bytes and nothing else; the first four read as the high word, the others as the low one |
| Yaz0.PackStep | lib/layout_write.c:138-156 | One compression call loses no input and gets somewhere |
| Yaz0.DrainStep | lib/layout_write.c:232-250 | One decompression call loses no input, gets somewhere or has ended, and fails only when nothing decodes |
| Unpack.UnpackCall | lib/rom_read.c:95-104 | A decompression call with room for the whole file fails only where nothing decodes, ends only with the file, and otherwise takes all its input |
| Yaz0Literal.LiteralCodecKeepsContract | lib/layout_write.c:103-160 | Some codec keeps the contract the pumps rely on |

Where a property needs a hypothesis, it is one of the code's own boundaries: MAKEROM a multiple of 16
long in a dense ROM (the table goes to entry 2's `vrom_start`, lib/layout_write.c:422-423), a BOOTCODE
that is not empty (an empty entry is written as zeros, lib/layout_write.c:362-365), outputs of at most
0xFFFFFFF0 bytes (`zelda64_align16` wraps above), and VROM ranges that do not overlap in a sparse ROM.

The public header (include/zelda64/zelda64.h:257-259) calls `zelda64_write_bound` the maximum possible
output size. The code does not keep that promise for a padded sparse ROM, whose padding it leaves out, nor
for a padded dense one whose bounds add up to more than 2^31, for which it returns 0; nor where a file to be
decompressed is longer than its VROM range, which the bound takes for its size, or where an entry's bound is
above 0xFFFFFFF0 and is rounded up to 0. The model follows the code. `Bound.BoundedExactly` says which files
are within their own bounds, the theorems behind it are about those, and each of the four failures has an
input in `Example`.

Compression does not keep every file of every ROM either. The extent of a compressed file is rounded up to
16 and may end behind the buffer it was written to, where it can not be read; and a file that is compressed
already is copied, but its row takes it for a stored one. `Preserve.CompressKeepsFiles` and
`Preserve.CopiesThatRead` say exactly which files are kept, and `Rebuild.AmpleHoldsAll` which buffers lose
none.

A rebuilt ROM need not open with its own table. The search takes the first signature, and one of its
conditions is that the table ends inside the ROM: entries in MAKEROM or BOOTCODE that fail it in the source
may pass in a larger output. `Rebuild.RebuiltOpens` says exactly when that happens. And reading a file need
not end: where its extent reaches out of the ROM, the loop of `decompress` may wait for bytes that never come
(`Rom.ReadingEnds`, `Example.ReadingHangs`).

## Left out

- Rom.OpenRom.ReadFile: requires that reading ends (`Rom.ReadReturns`), as a method that is proved to terminate has to; Rom.ReadingEnds says when it does. So does Rom.OpenRom.Decompress.
- Write.WriteRom: the bytes of an extent past the end of the source ROM are whatever the pumps' chunk holds; the model says that they are some bytes, not which. Nor does it say what a write that fails leaves in the output.
- Write.WriteBuffer: the output must not be the source ROM's own buffer, and a layout has at least three entries (the code reads entry 2 of the table without asking).
- Bound.DenseBoundIsSound: is about files within their own bounds (Bound.BoundedExactly), and so are Bound.SparseBoundIsSound and Bound.BoundIsEnough; a ROM with other files may still have room, if some other entry's bound is larger than what is written for it.
- Packing a compress plan sparsely: it is written as planned (Write.WriteRom), but a file that grows when it is compressed may run into the next one, and nothing is said about what is kept.
- libyaz0 itself, of which the model has a contract; a failing `yaz0_compress_init` or `yaz0_decompress_init`.
- Sources of a layout's files other than one ROM: each entry of the C code carries its own pointer, in the model all come from the ROM that was opened. Entry sources other than a ROM are errors in the code.
- `zelda64_layout_set_operation`: a single assignment; the writer and the bound are proved for any operations.
- Files on disk (`lib/io_file.c`, `zelda64_open`, `zelda64_write`), allocators and memory errors, NULL arguments, `zelda64_close` and `zelda64_free_layout`, system error codes, error texts, version numbers.
- The CIC kinds: only the one the code knows is told from the others.
- The command line program under `src/`, but for the calls it makes: its options, files and messages.
