# LZX, progressive PNG, PVRTC and PNG fixed-point arithmetic: a Dafny model

This project models four components of the repository and proves what they promise.

* **The LZX decoder** (`extlib/libmspack-xenia`). `CanonicalCode`, `HuffSize`, `HuffTable`, `HuffBuild`, `HuffRead` and
  `LzxTables` are the two-level Huffman table, its size and decoding with it; `BitStream` and `BitReader` the bit buffer
  over a refilled byte buffer; `LzWindow` the match copy and `IntelE8` the call-address transform. `LzxSpec` is the decoder
  as a function of its input and its state, with every branch of the code; `LzxLens` and `LzxStream` are the decoder
  itself, a class that works in place on its window, buffers and tables and is proved to do exactly what the function
  says. `LzxProps`, `LzxStray` and `LzxOutput` prove what holds over every frame and over every sequence of requests.
  `LzxHistory` relates every step to one growing sequence of bytes, and `LzxFormat` says in plain numbers what single
  symbols mean. `LzxTokens`, `LzxLengths`, `LzxBlocks`, `BitPack` and `LzxEncode` write literals, matches, trees, blocks,
  frames and streams; `LzxRoundTrip` and `LzxFrames` prove that the decoder gets them back, `LzxTrees`, `LzxStored`,
  `LzxLiterals` and `LzxParsed` that all data can be written, in any way of taking it apart.
* **The progressive PNG reader** (`pngpread.c`). `PngQueue` is the two-segment byte queue; `PngPushSpec` the reader as a
  machine that takes what it needs; `PngPush` the reader itself, a class proved against that machine; `PngChunks` what it
  makes of a file of whole chunks, `PngImageData` what inflate, the handlers and the CRC check get. `Adam7` and
  `PngRows` are the pass macros and the row scheduler for interlaced images.
* **The PVRTC decompressor** (`PVRTDecompress.cpp`). `PvrtcTwiddle` is the order of the words, `PvrtcColor` the colours and
  their interpolation, `PvrtcModulation` the modulation data, `Pvrtc` the tile between four words and its place in the
  image, `PvrtcTexture` the words of a texture and `PvrtcImage` the whole image. `PvrtcFormat` gives every pixel from the bits
  of the words around it, without tiles.
* **Fixed-point arithmetic** (`png.c`). `PngMulDiv` is the integer branch of `png_muldiv`, `PngAscii` the decimal printer,
  `PngFpNumber` the scanner.

`Powers` holds the arithmetic of shifts and masks, `Wrappers` the type of values that may be missing.
`dafny verify dfyconfig.toml` checks everything.

## How the parts are connected

Where the code changes things step by step the model is imperative, and each method is proved against a function of the
old state; the properties are then proved about these functions. The chains end in the following results.

* `HuffBuild.MakeDecodeTable` succeeds exactly for the codes whose Kraft sums allow it, and `HuffRead.ReadHuffSym` with the
  table it built decodes the canonical code of RFC 1951, which `HuffRead.DecodeSymbolIsPrefix` and
  `HuffRead.PrefixIsDecoded` state in both directions over bit strings. Successful or not it writes exactly the entries
  that `HuffSize.NodesArePrefixes` counts, which `LzxTables` compares with the tables of the stream.
* `LzxStream.LzxdStream.Decompress` refines `LzxOutput.Decompress`, for which `LzxOutput.SplitRequest` and
  `LzxOutput.JoinRequests` show that it does not matter how the output is asked for, and `LzxProps.FrameWrites` and
  `LzxProps.FrameOverruns` what every frame does.
* `LzxFrames.StreamIsRead` ties the same function to what was written: every stream of frames, with blocks of all three
  kinds that begin and end in any frame, any encoding of their code lengths and any literals and matches that fit, is
  decoded to just these. `LzxStored.EveryDataHasAStream` and `LzxLiterals.EveryDataHasLiterals` show that no data is without
  such a stream, of uncompressed blocks or of literals with complete codes, and `LzxParsed.EveryParsingHasAStream` that any
  way of taking data apart into literals and repetitions within the window can be written and comes out as the data.
* `LzxHistory.MatchAccepted` says which matches the decoder takes, `LzxHistory.MatchInsideStream` that these are the ones
  inside the decoded bytes and the reference data, and `LzxHistory.MatchRepeats` what they repeat. The history that they speak
  of is kept by every step of a frame and every request, and `LzxHistory.FrameInHistory` says what a frame writes out: its
  new bytes, with `IntelE8.CallBecomes` for the number behind every call.
* `PngPush.PngReader.ProcessData` refines `PngPushSpec.Feed`, for which `PngPushSpec.CutsDoNotMatter` and
  `PngChunks.FileIsRead` show that it does not matter how the input is cut, nor how much of the signature the
  application has read itself, short of all of it. `PngImageData.ImageIsInflated` says that the image is what inflate makes
  of the contents of the IDAT chunks.
* `PngRows.PngRows.ReadImage` reports exactly the rows that the Adam7 passes consist of, which `Adam7.EveryPixelOnce` and
  `Adam7.SizesAddUp` relate to the pixels of the image.
* `PvrtcImage.PvrtcDecompress` puts in every pixel what `PvrtcFormat.FormatPixel` gives for it, and
  `PvrtcFormat.FactorSelects` says how the two colours are mixed there; `Pvrtc.TilesPartition` that tiles reach every pixel
  once, and `Pvrtc.PixelInRange` that it fits.
* `PngAscii.AsciiFromFixed` prints a decimal number that reads back as the given one, with its sign and no digit to
  spare, and
  `PngFpNumber.FpStringIsNumber` says that it is accepted.

## Where the code differs from its documentation

* `png_muldiv` promises the nearest integer. For an odd divisor it rounds up one unit of the remainder too early, so that a
  division by 1 adds 1, and a quotient that rounding carries out of 32 bits is reported as 0 with success
  (`PngMulDiv.MulDivRounds`, `PngMulDiv.MulDivSucceeds`, with concrete numbers in `PngMulDiv.OneTooMany` and
  `PngMulDiv.LostOverflow`).
* After pretree code 19 lzxd_read_lens reads a second symbol, which can be 17 to 19; a length can then leave the range
  0..16. `LzxStray.LengthsInRange` says exactly when, and `LzxStray.StrayLength` gives a stream.
* The E8 operand map is not one-to-one for a file size that is negative as a signed number and larger than -curpos
  (`IntelE8.OperandMapOneToOne`).
* The table size in the comment above make_decode_table is not enough for all code lengths. `HuffSize.DocumentedSizeExact`
  says for which lengths it is. Of the tables of the stream only the one of the pretree can be too small, and only for a
  pretree that is then refused (`LzxTables.PretreeSize`, with such a pretree in `LzxTables.PretreeOverflow`).
* An application that has read all 8 signature bytes itself makes the progressive reader fail on the first byte it gets,
  because png_sig_cmp returns an error for a comparison of 0 bytes (`PngChunks.WholeSignatureRead`).

## Model

| member | source | states |
|---|---|---|
| CanonicalCode.IntervalsDisjoint | extlib/libmspack-xenia/readhuff.h:92-117 | of two coded symbols the earlier one, by length and then by symbol, owns 16-bit numbers that all lie below those of the later one |
| CanonicalCode.DecodesUnique | extlib/libmspack-xenia/readhuff.h:34-41 | at most one symbol has a code that a given 16-bit number begins with |
| CanonicalCode.DecodesIsRfcCode | extlib/libmspack-xenia/readhuff.h:92-114 | the position counter gives exactly the codes of section 3.2.2 of RFC 1951: a number belongs to a symbol if and only if its first bits are the code that the RFC algorithm (counts by length, first code of each length) assigns |
| CanonicalCode.PlaceIsKraft | extlib/libmspack-xenia/readhuff.h:92-117 | the position behind the last code of a length is the Kraft sum up to that length |
| CanonicalCode.PlaceAligned | extlib/libmspack-xenia/readhuff.h:139-167 | the position is a multiple of the weight of the current length all the time |
| CanonicalCode.LongCodesIgnored | extlib/libmspack-xenia/readhuff.h:116-117 | when codes of at most nbits bits fill the direct table, no 16-bit number begins with a longer code |
| HuffTable.SlotsInjective | extlib/libmspack-xenia/readhuff.h:130-162 | no two entries of a table under construction stand for the same bit prefix |
| HuffTable.GrowKeepsTable | extlib/libmspack-xenia/readhuff.h:152-157 | allocating two entries below an unused one keeps every entry right: unused, the owner of its whole interval, or the node below it |
| HuffTable.PlaceSymbol | extlib/libmspack-xenia/readhuff.h:159-164 | storing a symbol at the end of its path keeps every entry right, with the interval of the symbol added to the owned numbers |
| HuffTable.NotOwnedYet | extlib/libmspack-xenia/readhuff.h:151-161 | an entry on the path of the next code is never a symbol, so the walk down the tree never leaves the nodes |
| HuffBuild.FillRun | extlib/libmspack-xenia/readhuff.h:105-107 | the run of direct entries gets the symbol and no other entry changes |
| HuffBuild.FillLength | extlib/libmspack-xenia/readhuff.h:92-113 | all codes of one length go to their direct entries; an overrun is reported only when the Kraft sum exceeds 1 |
| HuffBuild.FillDirect | extlib/libmspack-xenia/readhuff.h:91-114 | the first phase succeeds if and only if the codes of at most nbits bits have a Kraft sum of at most 1, and then every filled entry holds the symbol that owns its whole interval |
| HuffBuild.MarkUnused | extlib/libmspack-xenia/readhuff.h:119-128 | exactly the rest of the direct table is marked unused |
| HuffBuild.UnusedIsFresh | extlib/libmspack-xenia/readhuff.h:151-152 | an entry on the path of the next code is unused if and only if that code is the first one with these first bits |
| HuffBuild.Allocate | extlib/libmspack-xenia/readhuff.h:152-157 | a path that has not been taken gets two unused entries, and one that has gets none; node numbers never run into symbols |
| HuffBuild.Descend | extlib/libmspack-xenia/readhuff.h:159-161 | one bit further down the path of the code |
| HuffBuild.InsertCode | extlib/libmspack-xenia/readhuff.h:142-164 | a long code is entered at the end of its own path, with exactly the nodes that its new prefixes need; it asks only for room for these |
| HuffBuild.AddLength | extlib/libmspack-xenia/readhuff.h:139-166 | all codes of one length go into the tree, or the Kraft sum of all codes exceeds 1 and the nodes are those of the codes before |
| HuffBuild.AddLongCodes | extlib/libmspack-xenia/readhuff.h:130-170 | the second phase succeeds if and only if all codes together have a Kraft sum of exactly 1; successful or not, exactly the entries in use are written |
| HuffBuild.MakeDecodeTable | extlib/libmspack-xenia/readhuff.h:78-171 | returns 0 if and only if the codes of at most nbits bits fill the direct table, or leave room and all codes of at most 16 bits together fill it; then the table decodes exactly that canonical code. It asks only for the entries that these lengths need, accepted or not: no other entry changes, and unless the short codes overrun the direct table every one of these is written |
| HuffBuild.LastInUse | extlib/libmspack-xenia/readhuff.h:119-165 | TableSize is one past the last entry in use, so the last one that is written |
| HuffSize.NodesAtStep | extlib/libmspack-xenia/readhuff.h:149-157 | a code adds a node of a depth if and only if it starts at a new prefix of that depth |
| HuffSize.CodeAddsNodes | extlib/libmspack-xenia/readhuff.h:149-157 | so the number of nodes grows with each code by the number of its new prefixes |
| HuffSize.PrefixesCounted | extlib/libmspack-xenia/readhuff.h:130-165 | the number of nodes of a depth, computed from Kraft sums, is the number of different prefixes of that depth among the codes that are placed |
| HuffSize.NodesArePrefixes | extlib/libmspack-xenia/readhuff.h:130-165 | and so for all depths together, whether the lengths are accepted or refused |
| HuffSize.NodesBalance | extlib/libmspack-xenia/readhuff.h:130-170 | nodes plus the direct entries that lead to them are exactly the long codes for a complete code, at most these for codes that own too many numbers, and otherwise at most one more for each level |
| HuffSize.DocumentedSizeExact | extlib/libmspack-xenia/readhuff.h:63-76 | everything is written within (1<<nbits) + (nsyms*2) entries, successfully or not, if and only if the placed codes have no more prefixes of nbits bits or more than there are symbols, nor than half the direct entries |
| HuffSize.DocumentedSizeSuffices | extlib/libmspack-xenia/readhuff.h:74-76 | with at most 2^(nbits-1) coded symbols the documented size is enough for all lengths that are accepted, and for those that are refused because they own too many numbers |
| LzxTables.PretreeSize | extlib/libmspack-xenia/lzx.h:91-92 | a pretree fits in PRETREE_table if and only if its codes have at most 20 prefixes of 6 bits or more; every pretree that is accepted does, and none needs more than 122 entries |
| LzxTables.PretreeOverflow | extlib/libmspack-xenia/lzx.h:91-92 | 20 pretree codes of 15 bits are refused, but use 25 nodes and 114 entries of a table of 104 |
| LzxTables.MainSize | extlib/libmspack-xenia/lzx.h:93-94 | every main tree of a regular window fits in MAINTREE_table, whether it is accepted or not |
| LzxTables.LengthSize | extlib/libmspack-xenia/lzx.h:95-96 | every length tree fits in LENGTH_table |
| LzxTables.AlignedSize | extlib/libmspack-xenia/lzx.h:97-98 | every aligned tree fits in ALIGNED_table |
| LzxTables.ReadLensTail | extlib/libmspack-xenia/lzxd.c:159-188 | lzxd_read_lens changes no length behind the safety margin of its last symbol |
| BitStream.ReadBitsIsNextBits | extlib/libmspack-xenia/readbits.h:125-133 | READ_BITS(n) gives the value of the next n bits of the stream of little-endian 16-bit words read from the top bit down, removes exactly these, and fails if and only if fewer are left |
| BitStream.DropTakes | extlib/libmspack-xenia/readbits.h:148-151 | PEEK_BITS and REMOVE_BITS split the remaining bits at n |
| BitStream.EnsureKeeps | extlib/libmspack-xenia/readbits.h:125-127 | fetching words changes nothing about what is still to be read, and never needs more than 32 bits of buffer |
| BitStream.OrIsSum | extlib/libmspack-xenia/readbits.h:150-151 | an or of numbers without common bits is their sum |
| BitReader.BitReader.BufferIsClean | extlib/libmspack-xenia/readbits.h:60-64 | the buffer bits below the unread ones are zero |
| BitReader.BitReader.ReadInput | extlib/libmspack-xenia/readbits.h:183-205 | a refill of any size, at least one byte before the end, keeps the position; two zero bytes are made up once at the end; it fails if and only if these are used up or reading fails |
| BitReader.BitReader.NextByte | extlib/libmspack-xenia/readbits.h:174-181 | the next byte of the input followed by two zero bytes, whatever the sizes of the reads |
| BitReader.BitReader.InjectBits | extlib/libmspack-xenia/readbits.h:150-151 | 16 more bits behind the unread ones |
| BitReader.BitReader.ReadBytes | extlib/libmspack-xenia/lzxd.c:86-91 | one more little-endian word |
| BitReader.BitReader.EnsureBits | extlib/libmspack-xenia/readbits.h:125-127 | at least n unread bits, or the end of the input |
| BitReader.BitReader.PeekBitsIs | extlib/libmspack-xenia/readbits.h:148 | the shift gives the next n unread bits |
| BitReader.BitReader.RemoveBits | extlib/libmspack-xenia/readbits.h:149 | the n bits are gone, also when the shift moves them out of 32 bits |
| BitReader.BitReader.ReadBits | extlib/libmspack-xenia/readbits.h:129-133 | the buffered reader reads exactly what the pure bit stream says |
| HuffRead.DecodeSymbolIsPrefix | extlib/libmspack-xenia/readhuff.h:31-41 | the decoded symbol is one whose RFC 1951 code the stream begins with, and exactly the bits of that code are removed |
| HuffRead.PrefixIsDecoded | extlib/libmspack-xenia/readhuff.h:31-41 | a symbol whose code the stream begins with is the one decoded |
| HuffRead.BuildableDecodes | extlib/libmspack-xenia/readhuff.h:31-41 | with lengths that make_decode_table accepts every 16-bit number begins with a code |
| HuffRead.DecodeFailsAtEnd | extlib/libmspack-xenia/readhuff.h:34-41 | after a successful build decoding fails if and only if fewer than 16 bits are left |
| HuffRead.HuffTraverse | extlib/libmspack-xenia/readhuff.h:53-60 | the walk through the tree ends at the symbol; it never meets an unused entry and never runs out of bits, so HUFF_ERROR is not reached |
| HuffRead.CodeFits | extlib/libmspack-xenia/readhuff.h:92-117 | with a Kraft sum of at most 1 every code fits in its own length, so that it can be written |
| HuffRead.Lookup | extlib/libmspack-xenia/readhuff.h:34-41 | direct lookup and tree walk together find the symbol of the canonical code |
| HuffRead.ReadHuffSym | extlib/libmspack-xenia/readhuff.h:34-41 | the two-level table decodes the same symbol, and leaves the reader in the same place, as decoding straight from the canonical code |
| LzWindow.CopyMatchIs | extlib/libmspack-xenia/lzxd.c:616-647 | for offsets 1..window_size every copied byte is the byte offset places back, in the new window, or in the old one when that place lies round the window |
| LzWindow.CopyMatchElsewhere | extlib/libmspack-xenia/lzxd.c:616-647 | a match changes no other byte of the window |
| LzWindow.CopyMatchZero | extlib/libmspack-xenia/lzxd.c:641-644 | an offset of 0 leaves the window as it is |
| LzWindow.RunIsMatch | extlib/libmspack-xenia/lzxd.c:633-644 | each of the copy runs is the corresponding piece of the circular copy, overlapping or not |
| LzWindow.CopyMatchInPlace | extlib/libmspack-xenia/lzxd.c:616-644 | the two copy runs in place give the circular copy |
| IntelE8.OperandsInverse | extlib/libmspack-xenia/lzxd.c:845-846 | for a positive file size and every position below 2^31 the operand map and the one of the encoder undo each other, permute [-curpos, filesize), and leave everything else alone |
| IntelE8.OperandMapOneToOne | extlib/libmspack-xenia/lzxd.c:845-851 | over all 32-bit file sizes the map of the four operand bytes is one-to-one if and only if the file size is not negative or is at most -curpos |
| IntelE8.TransformRoundTrip | extlib/libmspack-xenia/lzxd.c:828-861 | decoding a frame undoes encoding it and encoding undoes decoding, for every frame that ends at or below 2^31, which all transformed frames do, and every positive file size |
| IntelE8.SameCalls | extlib/libmspack-xenia/lzxd.c:842-854 | both directions find their 0xE8 bytes at the same places |
| IntelE8.LastSixUnchanged | extlib/libmspack-xenia/lzxd.c:49-55 | the last 6 bytes of a frame are never changed |
| IntelE8.NumberOfBytes | extlib/libmspack-xenia/lzxd.c:844-844 | an operand is the signed 32-bit number whose lowest byte comes first |
| IntelE8.CallIs | extlib/libmspack-xenia/lzxd.c:842-854 | a call is an 0xE8 that is not among the last ten bytes and not one of the four bytes behind an earlier call |
| IntelE8.CallBecomes | extlib/libmspack-xenia/lzxd.c:845-851 | the number v behind a call at position pos of the output becomes v - pos for 0 <= v < filesize, v + filesize for -pos <= v < 0, and stays otherwise; a file size that is negative as a signed number makes the sum wrap around |
| IntelE8.OthersStay | extlib/libmspack-xenia/lzxd.c:842-854 | every byte that is not one of the four behind a call is unchanged |
| IntelE8.ConvertOperand | extlib/libmspack-xenia/lzxd.c:844-851 | the four operand bytes are replaced in place and no others; the number in them becomes relative to the call, as CallBecomes says |
| IntelE8.DecodeE8 | extlib/libmspack-xenia/lzxd.c:832-854 | the loop over the buffer gives the transform of the frame and touches nothing behind it; the number behind every call becomes relative to the call, and no other byte changes |
| LzxLens.ReadNumber | extlib/libmspack-xenia/readbits.h:129-133 | READ_BITS with its error code |
| LzxLens.ReadSymbol | extlib/libmspack-xenia/readhuff.h:34-41 | READ_HUFFSYM with its error code |
| LzxLens.ReadNumbers | extlib/libmspack-xenia/lzxd.c:152-156 | a run of numbers of one width |
| LzxLens.BuildTable | extlib/libmspack-xenia/lzxd.c:102-109 | BUILD_TABLE succeeds if and only if the lengths can be built, and then the table decodes them; it uses the entries up to TableSize |
| LzxLens.LensRound | extlib/libmspack-xenia/lzxd.c:159-183 | one pretree symbol: a run of zeros, a run of equal changed lengths, or one changed length |
| LzxLens.ReadLensInto | extlib/libmspack-xenia/lzxd.c:138-188 | lzxd_read_lens gives the lengths, the place in the input and the errors of the specification; when it succeeds it has used the 104 entries of the pretree table and no more |
| LzxLens.AlignToBytes | extlib/libmspack-xenia/lzxd.c:518-520 | an empty buffer drops a whole word, otherwise the rest of the current one |
| LzxLens.ReadStoredOffsets | extlib/libmspack-xenia/lzxd.c:518-529 | the three stored offsets, little-endian, behind the alignment |
| LzxLens.ReadBlockNumbers | extlib/libmspack-xenia/lzxd.c:481-492 | the padding byte, block type and 24-bit block length |
| LzxLens.ReadHeaderNumber | extlib/libmspack-xenia/lzxd.c:463-464 | the 1-bit or 33-bit header, as a signed 32-bit number |
| LzxLens.RealignReader | extlib/libmspack-xenia/lzxd.c:817-819 | the input is moved on to the next word |
| LzxTokens.SymbolIsRead | extlib/libmspack-xenia/readhuff.h:34-41 | a symbol that was written with its code is read back, and what follows it is left |
| LzxTokens.NumberIsRead | extlib/libmspack-xenia/readbits.h:129-133 | so is a number of up to 17 bits |
| LzxTokens.LengthIsRead | extlib/libmspack-xenia/lzxd.c:563-571 | every match length from 2 to 257, split between main symbol and length tree, is read back |
| LzxTokens.LongOffsetIsRead | extlib/libmspack-xenia/lzxd.c:579-583 | an offset written as a slot and its extra bits, with the low three bits through the aligned tree in an aligned block (lines 682-701), is read back |
| LzxTokens.OffsetIsRead | extlib/libmspack-xenia/lzxd.c:573-584 | a repeated offset changes places with the first one, a new one goes to the front |
| LzxTokens.MatchIsRead | extlib/libmspack-xenia/lzxd.c:560-647 | a match that was written is copied in the window |
| LzxTokens.TokenIsRead | extlib/libmspack-xenia/lzxd.c:552-648 | a literal or match that was written is read back as itself and nothing else is used up |
| LzxTokens.TokensAreRead | extlib/libmspack-xenia/lzxd.c:552-650 | a run of literals and matches, each written with the state that those before it leave, is decoded to just these |
| LzxLengths.NumbersAreRead | extlib/libmspack-xenia/lzxd.c:152-156 | pretree lengths that were written are read back |
| LzxLengths.OpIsRead | extlib/libmspack-xenia/lzxd.c:159-183 | each way to write code lengths is read back as what it stands for: a change, a short or a long run of zeros, a run of equal lengths |
| LzxLengths.OpsAreRead | extlib/libmspack-xenia/lzxd.c:159-183 | and so is any sequence of them that covers the symbols, also when the last run goes past the last one |
| LzxLengths.RunIsRead | extlib/libmspack-xenia/lzxd.c:138-188 | lzxd_read_lens reads pretree and code lengths back, however they are written |
| LzxLengths.DeltaInverse | extlib/libmspack-xenia/lzxd.c:178-182 | the change of a code length that is written gives the new length back |
| LzxLengths.ChangesSuffice | extlib/libmspack-xenia/lzxd.c:178-182 | with changes alone any lengths can be turned into any others |
| LzxStray.DeltaRange | extlib/libmspack-xenia/lzxd.c:178-182 | a changed length stays in 0..16 if and only if the symbol is at most the old length plus 17 |
| LzxStray.RoundInRange | extlib/libmspack-xenia/lzxd.c:160-183 | one round of lzxd_read_lens keeps all lengths in 0..16, except exactly when a run of equal lengths is followed by a symbol above the old length plus 17 |
| LzxStray.LengthsInRange | extlib/libmspack-xenia/lzxd.c:138-188 | a successful call of lzxd_read_lens keeps all lengths in 0..16 if and only if no round of it does that |
| LzxStray.StrayLength | extlib/libmspack-xenia/lzxd.c:171-176 | there is a stream whose main tree begins with four lengths of 254 |
| LzxBlocks.HeaderIsRead | extlib/libmspack-xenia/lzxd.c:463-464 | the file size in the header is read back, as a signed number; a single bit 0 stands for 0 |
| LzxBlocks.NumbersOfBlock | extlib/libmspack-xenia/lzxd.c:481-492 | block type and 24-bit block length are read back, with or without a padding byte before them |
| LzxBlocks.MainIsRead | extlib/libmspack-xenia/lzxd.c:504-505 | the main tree, in its two parts, is read back |
| LzxBlocks.TreesAreRead | extlib/libmspack-xenia/lzxd.c:503-511 | main tree and length tree are read back, the length tree also when it is empty |
| LzxBlocks.AlignedIsRead | extlib/libmspack-xenia/lzxd.c:497-500 | the aligned tree is read back |
| LzxBlocks.HeadIsRead | extlib/libmspack-xenia/lzxd.c:479-512 | the whole header of a verbatim or aligned block is read back |
| BitPack.WordsHoldBits | extlib/libmspack-xenia/lzxd.c:86-91 | bits that were packed into little-endian words are the bits that the reader finds |
| LzxRoundTrip.CompressedIsRead | extlib/libmspack-xenia/lzxd.c:476-808 | a verbatim or aligned block, or the part of it that a frame holds, is decoded to its literals and matches |
| LzxRoundTrip.RawHeaderIsRead | extlib/libmspack-xenia/lzxd.c:514-529 | the header of an uncompressed block is read back behind its alignment of 1 to 16 bits |
| LzxRoundTrip.RawIsRead | extlib/libmspack-xenia/lzxd.c:514-529 | an uncompressed block, or a part of it, is decoded to its bytes (lines 776-796) |
| LzxRoundTrip.PartIsRead | extlib/libmspack-xenia/lzxd.c:476-815 | any part of a block that was written is decoded to what it stands for, behind its padding byte if there is one, and the next part follows |
| LzxRoundTrip.PartsAreRead | extlib/libmspack-xenia/lzxd.c:476-815 | and so are all parts of a frame; blocks may begin and end in any frame |
| LzxRoundTrip.EndIsRead | extlib/libmspack-xenia/lzxd.c:817-819 | after a frame the reader stands at the next word, or at the next byte of an uncompressed block |
| LzxFrames.FrameIsRead | extlib/libmspack-xenia/lzxd.c:459-880 | a whole frame that was written is decoded to what it stands for, the first one with the header of the stream |
| LzxFrames.FramesAreRead | extlib/libmspack-xenia/lzxd.c:434-880 | frame after frame, everything that was written is decoded |
| LzxFrames.StreamIsRead | extlib/libmspack-xenia/lzxd.c:394-895 | the decoder gives back every stream that can be written, from its start |
| LzxFrames.RequestIsServed | extlib/libmspack-xenia/lzxd.c:411-434 | and any request that needs no more than its frames gets the first bytes of it |
| LzxStored.FrameGives | extlib/libmspack-xenia/lzxd.c:514-529 | the bytes of a frame, transformed by the encoder and put in an uncompressed block, come out as they were (lines 776-861) |
| LzxStored.EveryDataHasAStream | extlib/libmspack-xenia/lzxd.c:394-895 | for all data, every window and every file size there is a stream whose decoder gives any first part of the data that is asked for |
| LzxLiterals.TreesAreLiteral | extlib/libmspack-xenia/lzxd.c:503-511 | code lengths in 0..16 can always be changed, with a complete pretree, to a complete main tree of the 256 literals and an empty length tree |
| LzxLiterals.LiteralsApply | extlib/libmspack-xenia/lzxd.c:555-559 | a run of literals puts its bytes in the window and leaves everything else alone |
| LzxLiterals.LiteralFrameGives | extlib/libmspack-xenia/lzxd.c:503-511 | the bytes of a frame, transformed by the encoder and put as literals in a verbatim block, come out as they were (lines 550-559 and 776-861) |
| LzxLiterals.EveryDataHasLiterals | extlib/libmspack-xenia/lzxd.c:394-895 | for all data, every window and every file size there is a stream of verbatim blocks of literals, with complete main tree and pretree codes, whose decoder gives any first part of the data that is asked for |
| LzxTrees.TreesBecome | extlib/libmspack-xenia/lzxd.c:503-511 | with a complete pretree code lengths in 0..16 can be changed to those of any trees that can be built |
| LzxHistory.ShowsMore | extlib/libmspack-xenia/lzxd.c:550-559 | a window that shows the last bytes of a history shows those of the longer history when bytes are decoded into it |
| LzxHistory.CopyRepeats | extlib/libmspack-xenia/lzxd.c:616-643 | a copied match appends to the history bytes that each equal the one a fixed distance before; the distance is the offset if that is between 1 and the size of the window |
| LzxHistory.MatchAccepted | extlib/libmspack-xenia/lzxd.c:611-634 | in every state in which length and offset can be read a match is accepted if and only if it ends inside the window, its offset does not exceed the window position by more than the window size, and the offset does not exceed the window position, the number of bytes written, or the window position plus the reference data; otherwise the error is a decrunch error |
| LzxHistory.MatchInsideStream | extlib/libmspack-xenia/lzxd.c:611-634 | in the states of a run a match with an offset of at most the window size is accepted if and only if it ends inside the window and begins inside the decoded bytes or the reference data before them |
| LzxHistory.MatchRepeats | extlib/libmspack-xenia/lzxd.c:616-647 | an accepted match appends its bytes to the history, repeated at its distance |
| LzxHistory.ElementKeeps | extlib/libmspack-xenia/lzxd.c:550-647 | a literal or a match extends the history and leaves the window showing its end |
| LzxHistory.BlockLoopKeeps | extlib/libmspack-xenia/lzxd.c:476-815 | so does every round of the block loop, with runs of all three types of blocks |
| LzxHistory.InitialPlaced | extlib/libmspack-xenia/lzxd.c:327-345 | a new stream has the contents of the window as its history |
| LzxHistory.FrameInHistory | extlib/libmspack-xenia/lzxd.c:459-878 | a frame of 32768 bytes, or of what is left of the stream, adds its bytes to the history; they are written out as they are, or, when calls are to be translated, with the number behind every call made relative to the call, whose position counts from the start of the output; intel_curpos is the number of decoded bytes |
| LzxHistory.DecompressKeeps | extlib/libmspack-xenia/lzxd.c:394-895 | all of this holds after any request, with one history that only grows |
| LzxHistory.FramesInHistory | extlib/libmspack-xenia/lzxd.c:394-895 | without a file size the output of any number of frames is what they add to the history |
| LzxFormat.ShortMatch | extlib/libmspack-xenia/lzxd.c:560-585 | main symbol 256 + 8 * slot + k with k < 7 and slot < 4 copies k + 2 bytes from distance R0, R1, R2 or 1 and moves the queue (lines 611-647 for the copy) |
| LzxFormat.LongLength | extlib/libmspack-xenia/lzxd.c:561-571 | with k = 7 the length is 9 plus a symbol of the length tree, and an empty tree is a decrunch error |
| LzxFormat.VerbatimOffset | extlib/libmspack-xenia/lzxd.c:579-583 | the offset of slots 4 to 35 is 2^(e+1) - 2, or 2^(e+1) + 2^e - 2 for odd ones, plus e bits, with e = slot / 2 - 1; slot 36 + i stands for 0x40000 + 0x20000 i - 2 plus 17 bits |
| LzxFormat.AlignedTreeOffset | extlib/libmspack-xenia/lzxd.c:681-708 | in an aligned block the low three of at least three bits are a symbol of the aligned tree behind the others |
| LzxFormat.FirstOffsets | extlib/libmspack-xenia/lzxd.c:265-267 | the repeated offsets are 1 at first |
| LzxFormat.TypeBits | extlib/libmspack-xenia/lzxd.c:489-491 | block types 1, 2 and 3 are written as 001, 010 and 011 |
| LzxFormat.BlockTypes | extlib/libmspack-xenia/lzxd.c:495-535 | of the block types only 1 to 3 exist; only type 2 changes the aligned tree, only type 3 the repeated offsets; calls are expected after a block of type 3 or a code for 0xE8 |
| LzxFormat.DifferenceOfLengths | extlib/libmspack-xenia/lzxd.c:178-182 | a pretree symbol of at most 16 is the old length minus the new one, modulo 17 |
| LzxFormat.ShortRunOfZeros | extlib/libmspack-xenia/lzxd.c:161-165 | symbol 17 is 4 plus a 4-bit number of zeros |
| LzxFormat.LongRunOfZeros | extlib/libmspack-xenia/lzxd.c:166-170 | symbol 18 is 20 plus a 5-bit number of zeros |
| LzxFormat.RunOfOneLength | extlib/libmspack-xenia/lzxd.c:171-177 | symbol 19 is 4 plus a bit of equal lengths, changed by the symbol that follows |
| LzxFormat.OneByteStream | extlib/libmspack-xenia/lzxd.c:394-895 | a stream of 17 bytes, given in full, is decoded to one byte |
| LzxParsed.FullOk | extlib/libmspack-xenia/readhuff.h:91-170 | a complete code with two neighbouring lengths exists for any number of symbols |
| LzxParsed.SlotForDistance | extlib/libmspack-xenia/lzxd.c:190-214 | with the slots of its window every distance from 1 to the window size less 3 can be named |
| LzxParsed.WrittenMatch | extlib/libmspack-xenia/lzxd.c:560-647 | a match that was written at any window position, with any offset up to the window size that begins inside the decoded bytes or the reference data, is decoded to the bytes at that distance |
| LzxParsed.PiecesTokens | extlib/libmspack-xenia/lzxd.c:550-647 | literals and repetitions of earlier bytes can be written as tokens that put the data into the window |
| LzxParsed.PieceFrame | extlib/libmspack-xenia/lzxd.c:459-878 | a frame that is parsed into them comes out as it was, after the E8 transform |
| LzxParsed.EveryParsingHasAStream | extlib/libmspack-xenia/lzxd.c:394-895 | however data is parsed into literals and repetitions within the window and the reference data, there is a stream of verbatim blocks that writes just these, with complete codes, whose decoder gives any first part of the data that is asked for |
| LzxSpec.Bits | extlib/libmspack-xenia/readbits.h:129-133 | n bits are used up, and the value is below 2^n |
| LzxSpec.Symbol | extlib/libmspack-xenia/readhuff.h:34-41 | a symbol of the code, and at least one bit is used up |
| LzxSpec.LensStep | extlib/libmspack-xenia/lzxd.c:159-183 | between 1 and 51 lengths are written, inside the safety margin of 64 |
| LzxSpec.ReadBlock | extlib/libmspack-xenia/lzxd.c:479-536 | a block header uses up input, sets the block length, and decodes or writes nothing |
| LzxSpec.Match | extlib/libmspack-xenia/lzxd.c:560-647 | a match moves the window position on and changes only window, repeated offsets and place in the input; which matches are accepted and what they copy is stated by LzxHistory.MatchAccepted and LzxHistory.MatchRepeats |
| LzxSpec.Run | extlib/libmspack-xenia/lzxd.c:552-650 | at least the requested bytes are decoded, and position plus what is left of the run stays the same |
| LzxSpec.RunOfBlock | extlib/libmspack-xenia/lzxd.c:538-547 | a run that ends its block ends exactly at the end of the block, or the decoder fails |
| LzxSpec.BlockStep | extlib/libmspack-xenia/lzxd.c:476-808 | while bytes are to do, window position plus bytes to do is the same at every round, and every round uses up input or output |
| LzxSpec.BlockLoop | extlib/libmspack-xenia/lzxd.c:476-808 | the frame counters, the written bytes and the parameters are not touched by the blocks of a frame |
| LzxSpec.FrameFits | extlib/libmspack-xenia/lzxd.c:468-474 | a frame fits in the window behind the frame position, and ends at a frame boundary or at the end of the stream |
| LzxSpec.FinishFrame | extlib/libmspack-xenia/lzxd.c:810-878 | a finished frame leaves exactly frame_size bytes to write and both positions at the next frame, wrapped |
| LzxSpec.DecodeFrame | extlib/libmspack-xenia/lzxd.c:459-880 | every successful frame keeps the balance of written and decoded bytes, frame number and window position |
| LzxProps.LoopIsStrict | extlib/libmspack-xenia/lzxd.c:476-815 | the blocks of a frame end exactly at the end of the frame if and only if no match ran past the end of its block or of the frame; then window position plus bytes to do never changed |
| LzxProps.OverrunEndsLoop | extlib/libmspack-xenia/lzxd.c:799-815 | a match that runs past the end and is let pass ends the block loop behind the end of the frame |
| LzxProps.LoopOverruns | extlib/libmspack-xenia/lzxd.c:476-815 | a match that runs past the end of its block or of the frame, behind rounds in which none did, makes the block loop fail with a decrunch error or end behind the frame; without one the loop is the strict one, with the same errors |
| LzxProps.FrameOverruns | extlib/libmspack-xenia/lzxd.c:799-815 | in a frame whose header could be read every such overrun ends in a decrunch error; any other frame is decoded strictly, to the same state or with the same error |
| LzxProps.FrameIsStrict | extlib/libmspack-xenia/lzxd.c:799-815 | a frame is decoded only if no match ran over |
| LzxProps.FrameWrites | extlib/libmspack-xenia/lzxd.c:810-878 | a decoded frame writes the window from frame_posn to frame_posn + frame_size and nowhere else; these bytes, with the E8 transform undone exactly when the code does it, are what is written out next |
| LzxProps.PositionBaseLow | extlib/libmspack-xenia/lzxd.c:203-214 | position_base[2k] is 2^k and position_base[2k+1] is 2^k + 2^(k-1), up to slot 36 |
| LzxProps.PositionBaseHigh | extlib/libmspack-xenia/lzxd.c:203-214 | from slot 36 on position_base grows by 2^17 |
| LzxProps.SlotsReachWindow | extlib/libmspack-xenia/lzxd.c:196-218 | the base behind the last slot of a window is the window size |
| LzxProps.SlotForOffset | extlib/libmspack-xenia/lzxd.c:190-214 | every offset below a slot base lies in an earlier slot with its extra bits |
| LzxProps.SlotUnique | extlib/libmspack-xenia/lzxd.c:190-214 | in only one slot |
| LzxProps.LeftAfterRead | extlib/libmspack-xenia/readbits.h:125-133 | a read that fetched a word leaves at most 15 bits |
| LzxProps.AlignDropsOneWord | extlib/libmspack-xenia/lzxd.c:489-520 | when the header of an uncompressed block is aligned at most 15 bits are left |
| LzxOutput.FramesAdd | extlib/libmspack-xenia/lzxd.c:434-880 | j frames and then k frames are j + k frames |
| LzxOutput.LastFrame | extlib/libmspack-xenia/lzxd.c:432-434 | a frame that is not written out completely is the last one of its request |
| LzxOutput.FrameLoopIs | extlib/libmspack-xenia/lzxd.c:434-880 | a request delivers its bytes from whole frames, and only the last one can be written in part; the check for bytes of the previous frame never fails |
| LzxOutput.DecompressIs | extlib/libmspack-xenia/lzxd.c:411-434 | a request delivers the bytes left over and then those of the frames it needs, one more when it ends on a frame boundary; it fails exactly when a frame fails or the stream ends too early |
| LzxOutput.SplitRequest | extlib/libmspack-xenia/lzxd.c:411-432 | whatever one request for n1 + n2 bytes can deliver, requests for n1 and then n2 bytes deliver too, and they write the same bytes |
| LzxOutput.JointNeeds | extlib/libmspack-xenia/lzxd.c:411-434 | a joint request decodes as many frames as its two parts, and one more if and only if the second part takes all the left-over bytes, and no others, and ends on a frame boundary |
| LzxOutput.JoinRequests | extlib/libmspack-xenia/lzxd.c:411-434 | two successful requests can be joined, with the same bytes and the same state; in that one case the joint request decodes the next frame as well, and fails if that frame does |
| LzxOutput.SecondNeeds | extlib/libmspack-xenia/lzxd.c:432 | how many frames the two parts of a request decode, against the whole |
| LzxOutput.WithinStream | extlib/libmspack-xenia/lzxd.c:468-474 | no request gets bytes behind the length of the stream |
| LzxStream.LzxdStream.constructor | extlib/libmspack-xenia/lzxd.c:279-362 | a new stream is in the initial state, with the window zeros and then the given data |
| LzxStream.LzxdStream.Init | extlib/libmspack-xenia/lzxd.c:279-362 | a stream is refused if and only if the window is not 2^15 to 2^21, the length is negative, or the buffer size is not positive |
| LzxStream.LzxdStream.ReadMainLensInto | extlib/libmspack-xenia/lzxd.c:503-505 | both runs of main tree lengths, changed from the previous block |
| LzxStream.LzxdStream.BuildLengthTable | extlib/libmspack-xenia/lzxd.c:111-125 | an empty length tree is allowed and remembered; any other tree must be complete |
| LzxStream.LzxdStream.BuildMainTable | extlib/libmspack-xenia/lzxd.c:506 | the main table is built if and only if the code lengths allow it |
| LzxStream.LzxdStream.ReadMainTreeInto | extlib/libmspack-xenia/lzxd.c:503-508 | lengths, table and the E8 flag of the main tree are those of the specification |
| LzxStream.LzxdStream.ReadLengthTreeInto | extlib/libmspack-xenia/lzxd.c:509-511 | the same for the length tree |
| LzxStream.LzxdStream.ReadUncompressedHeaderInto | extlib/libmspack-xenia/lzxd.c:514-530 | the same for the header of an uncompressed block |
| LzxStream.LzxdStream.ReadAlignedTreeInto | extlib/libmspack-xenia/lzxd.c:497-500 | the same for the aligned offset tree |
| LzxStream.LzxdStream.ReadBlockHeaderInto | extlib/libmspack-xenia/lzxd.c:495-535 | the header of each kind of block; afterwards the tables of that kind are there |
| LzxStream.LzxdStream.ReadBlockInto | extlib/libmspack-xenia/lzxd.c:479-536 | a new block |
| LzxStream.LzxdStream.MatchLengthInto | extlib/libmspack-xenia/lzxd.c:563-571 | the match length, or an error if the length tree is needed and empty |
| LzxStream.LzxdStream.AlignedOffsetInto | extlib/libmspack-xenia/lzxd.c:685-697 | the bits above the low three, if there are any, and then the aligned symbol |
| LzxStream.LzxdStream.LongOffsetInto | extlib/libmspack-xenia/lzxd.c:682-701 | position base and extra bits, with aligned bits in aligned blocks |
| LzxStream.LzxdStream.RepeatedOffset | extlib/libmspack-xenia/lzxd.c:574-577 | the queue of repeated offsets for the slots 0 to 2 |
| LzxStream.LzxdStream.MatchOffsetInto | extlib/libmspack-xenia/lzxd.c:573-584 | offset and queue for every slot, in both kinds of block |
| LzxStream.LzxdStream.CopyIfFits | extlib/libmspack-xenia/lzxd.c:611-647 | a match is copied if and only if it ends inside the window, its offset does not exceed the position by more than the window size, and it does not exceed the position, the bytes written, or the position plus the reference data |
| LzxStream.LzxdStream.MatchInto | extlib/libmspack-xenia/lzxd.c:560-647 | a whole match: the result and the state of LzxSpec.Match, which LzxHistory.MatchAccepted and LzxHistory.MatchRepeats pin down |
| LzxStream.LzxdStream.StoreLiteral | extlib/libmspack-xenia/lzxd.c:555-559 | one byte of the window changes and the position moves on |
| LzxStream.LzxdStream.ElementInto | extlib/libmspack-xenia/lzxd.c:552-648 | a literal or a match |
| LzxStream.LzxdStream.RunInto | extlib/libmspack-xenia/lzxd.c:552-649 | the loop over literals and matches |
| LzxStream.CopyRaw | extlib/libmspack-xenia/lzxd.c:776-793 | the loop over the byte buffer puts the next n bytes of the input in the window |
| LzxStream.LzxdStream.RawRunInto | extlib/libmspack-xenia/lzxd.c:776-793 | an uncompressed run |
| LzxStream.LzxdStream.RunOfBlockInto | extlib/libmspack-xenia/lzxd.c:538-547 | a run of a block, with the check of an overrun |
| LzxStream.LzxdStream.BlockStepInto | extlib/libmspack-xenia/lzxd.c:478-808 | one round of the block loop |
| LzxStream.LzxdStream.BlockLoopInto | extlib/libmspack-xenia/lzxd.c:476-808 | the block loop ends and does what the specification says |
| LzxStream.LzxdStream.ReadHeaderInto | extlib/libmspack-xenia/lzxd.c:459-466 | the header, once |
| LzxStream.LzxdStream.PrepareOutput | extlib/libmspack-xenia/lzxd.c:828-861 | the bytes to write are those of the frame, decoded in e8_buf if they need it |
| LzxStream.LzxdStream.Advance | extlib/libmspack-xenia/lzxd.c:872-878 | the counters behind a frame |
| LzxStream.LzxdStream.FinishFrameInto | extlib/libmspack-xenia/lzxd.c:810-878 | the end of a frame |
| LzxStream.LzxdStream.DecodeFrameInto | extlib/libmspack-xenia/lzxd.c:459-880 | a whole frame |
| LzxStream.LzxdStream.WriteOut | extlib/libmspack-xenia/lzxd.c:863-870 | exactly the next i bytes are written |
| LzxStream.LzxdStream.FrameLoopInto | extlib/libmspack-xenia/lzxd.c:434-880 | the frame loop, with at most one frame in part at its end |
| LzxStream.LzxdStream.Flush | extlib/libmspack-xenia/lzxd.c:411-421 | the bytes left over are written first |
| LzxStream.LzxdStream.Decompress | extlib/libmspack-xenia/lzxd.c:394-895 | lzxd_decompress writes the bytes, leaves the state and reports the errors of the specification, and a failed stream stays failed and writes nothing |
| PngQueue.PngQueue.FillBuffer | extlib/libpng/pngpread.c:548-588 | the next bytes of the queue, saved ones first; the rest stays in order |
| PngQueue.PngQueue.MoveDown | extlib/libpng/pngpread.c:593-606 | the saved bytes are moved to the front in place, overlapping or not |
| PngQueue.PngQueue.SaveBuffer | extlib/libpng/pngpread.c:591-648 | the queue is the same afterwards, all of it saved, and nothing is left to read |
| PngQueue.PngQueue.RestoreBuffer | extlib/libpng/pngpread.c:651-658 | the new data stands behind the saved bytes |
| PngPushSpec.RunMore | extlib/libpng/pngpread.c:45-48 | what the reader does with some bytes, and then with more, is what it does with all of them |
| PngPushSpec.CutsDoNotMatter | extlib/libpng/pngpread.c:36-49 | any way of cutting the input into calls leads to the same state with the same log as one call |
| PngPushSpec.SameInputSameOutcome | extlib/libpng/pngpread.c:36-49 | two ways of cutting the same input lead to the same chunks, the same image data and the same error |
| PngChunks.HeaderRuns | extlib/libpng/pngpread.c:181-196 | the 8 bytes of a chunk header are read as length and name |
| PngChunks.BodyRuns | extlib/libpng/pngpread.c:28-34 | a chunk is handled with exactly its data and CRC |
| PngChunks.EatRuns | extlib/libpng/pngpread.c:743-793 | image data can be taken in any portions |
| PngChunks.AllRun | extlib/libpng/pngpread.c:94-128 | on the encoding of a list of chunks the reader does what it does chunk by chunk |
| PngChunks.AllLog | extlib/libpng/pngpread.c:94-128 | chunk by chunk, the log grows by the chunk, or by the data of an IDAT |
| PngChunks.FileIsRead | extlib/libpng/pngpread.c:36-49 | for the part of the signature that the application has not read, if there is any, and whole chunks that end with IEND, cut in any way: the reader fails just when a chunk makes it fail; otherwise the handlers have seen exactly the other chunks, in order, and the image data is the contents of the IDATs |
| PngChunks.WholeSignatureRead | extlib/libpng/pngpread.c:134-164 | when the application has read all 8 bytes of the signature, every input ends in a signature error |
| PngImageData.EatInflates | extlib/libpng/pngpread.c:825-923 | image data of any length takes the image and the end of the stream to where inflate, byte by byte, takes them, and fails just when inflate rejects a byte; the CRC is that of all of it |
| PngImageData.HeaderAccepted | extlib/libpng/pngpread.c:181-196 | outside image data a chunk header is accepted if and only if its name consists of letters, its length is allowed, an IHDR has 13 bytes, and an IDAT comes behind an IHDR, behind a PLTE in an image with a palette, and not behind another run of IDATs if benign errors are fatal (lines 298-325) |
| PngImageData.IdatIsRead | extlib/libpng/pngpread.c:743-802 | a whole IDAT: inflate gets exactly its data, and the CRC that is checked is that of its name and data |
| PngImageData.ChunkIsHandled | extlib/libpng/pngpread.c:327-545 | the handler of a chunk gets exactly the name, the data and the CRC that the log has for it |
| PngImageData.RunInflates | extlib/libpng/pngpread.c:661-802 | a run of IDAT chunks leaves the image and the end of the stream as inflate leaves them for their data put together; when it fails the error is that of inflate, or of a CRC |
| PngImageData.ImageIsInflated | extlib/libpng/pngpread.c:36-49 | in a file that is cut in any way the image behind the first run of IDAT chunks is what inflate makes of the contents of these chunks, one behind the other, from the image that was begun |
| PngPush.PngReader.constructor | extlib/libpng/pngpread.c:1261-1271 | a reader that has seen nothing, with some of the signature read by the application |
| PngPush.PngReader.ReadSigBytes | extlib/libpng/pngpread.c:134-164 | any part of the signature is compared; with all 8 bytes read by the application the first byte fails |
| PngPush.PngReader.ReadChunkHeader | extlib/libpng/pngpread.c:181-196 | length and name with their checks |
| PngPush.PngReader.CheckOrder | extlib/libpng/pngpread.c:298-311 | IDAT is refused before IHDR, and before PLTE in an image with a palette |
| PngPush.PngReader.StartImage | extlib/libpng/pngpread.c:319-371 | too many IDATs are an error if benign errors are fatal; otherwise the application gets the header and the image begins (lines 319-323 and 362-371) |
| PngPush.PngReader.BeginImage | extlib/libpng/pngpread.c:298-325 | the conditions for the first and for further runs of IDAT chunks, with the benign error for too many of them |
| PngPush.PngReader.HandleChunk | extlib/libpng/pngpread.c:327-545 | a handler is entered only when push_length + 4 bytes are waiting, and gets exactly these |
| PngPush.PngReader.ReadChunkData | extlib/libpng/pngpread.c:298-545 | the rest of png_push_read_chunk, which saves the queue and waits when bytes are missing |
| PngPush.PngReader.ReadNextChunk | extlib/libpng/pngpread.c:167-545 | png_push_read_chunk does what the machine does with the queue, no more and no less |
| PngPush.PngReader.ChooseMode | extlib/libpng/pngpread.c:681-729 | another IDAT, or back to chunks, which needs an ended stream |
| PngPush.PngReader.ReadIdatHeader | extlib/libpng/pngpread.c:663-729 | the header behind an IDAT, with 12 bytes waiting |
| PngPush.PngReader.ProcessIdatData | extlib/libpng/pngpread.c:804-923 | the bytes go to the CRC and, until the stream ends, to inflate: image, end of stream and error are those of inflating the buffer byte by byte |
| PngPush.PngReader.ReadIdatSegment | extlib/libpng/pngpread.c:743-793 | as many bytes of image data as a segment of the queue holds |
| PngPush.PngReader.ReadIdat | extlib/libpng/pngpread.c:661-802 | png_push_read_IDAT does what the machine does with the queue |
| PngPush.PngReader.ProcessSomeData | extlib/libpng/pngpread.c:94-128 | one step, which makes progress |
| PngPush.PngReader.ProcessData | extlib/libpng/pngpread.c:36-49 | a call ends, and leaves exactly the state, the waiting bytes and the log of the machine, or its error |
| Adam7.MacrosAreTables | extlib/libpng/png.h:2466-2486 | the start, offset and shift macros describe the same passes as the tables of the row scheduler |
| Adam7.MasksArePasses | extlib/libpng/png.h:2513-2520 | the mask macros select exactly the rows and columns of a pass |
| Adam7.RowIndex | extlib/libpng/png.h:2493-2496 | PNG_PASS_ROWS counts the rows that map back into the image |
| Adam7.ColIndex | extlib/libpng/png.h:2495-2498 | PNG_PASS_COLS counts the columns that map back into the image |
| Adam7.EveryPixelOnce | extlib/libpng/png.h:2503-2506 | mapping the pixels of all passes back hits every pixel of the image exactly once |
| Adam7.SizesAddUp | extlib/libpng/png.h:2488-2496 | the passes together have as many pixels as the image |
| PngRows.ShownIs | extlib/libpng/pngpread.c:978-1144 | expanded rows come with data on all rows of the passes 0, 1, 3 and 5, where r mod 8 is at least 4 in pass 2, where r mod 4 is at least 2 in pass 4, and on odd rows in pass 6 |
| PngRows.Narrow | extlib/libpng/pngpread.c:1190-1194 | the passes skipped for narrow images are exactly those without columns |
| PngRows.NextPass | extlib/libpng/pngpread.c:1186-1215 | the next pass that has rows |
| PngRows.AllPixels | extlib/libpng/pngpread.c:1156-1219 | pass by pass, the rows delivered have as many pixels as the image |
| PngRows.PngRows.constructor | extlib/libpng/pngpread.c:1156-1219 | the scheduler starts at the first row of pass 0 |
| PngRows.PngRows.FindPass | extlib/libpng/pngpread.c:1186-1215 | the loop ends at the next pass that has rows, with its width and its number of rows |
| PngRows.PngRows.FinishRow | extlib/libpng/pngpread.c:1156-1219 | on to the next row, or to the first row of the next pass that has rows |
| PngRows.PngRows.EmitRows | extlib/libpng/pngpread.c:983-989 | up to n rows of one pass, and not beyond its end |
| PngRows.PngRows.Case0 | extlib/libpng/pngpread.c:980-1016 | a data row of pass 0: the rows it stands for and the empty rows in front of the next data row, for every width and height |
| PngRows.PngRows.Case1 | extlib/libpng/pngpread.c:1018-1037 | a data row of pass 1: the rows it stands for and the empty rows in front of the next data row, for every width and height |
| PngRows.PngRows.Case2 | extlib/libpng/pngpread.c:1039-1066 | a data row of pass 2: the rows it stands for and the empty rows in front of the next data row, for every width and height |
| PngRows.PngRows.Case3 | extlib/libpng/pngpread.c:1068-1087 | a data row of pass 3: the rows it stands for and the empty rows in front of the next data row, for every width and height |
| PngRows.PngRows.Case4 | extlib/libpng/pngpread.c:1089-1113 | a data row of pass 4: the rows it stands for and the empty rows in front of the next data row, for every width and height |
| PngRows.PngRows.Case5 | extlib/libpng/pngpread.c:1115-1131 | a data row of pass 5: the rows it stands for and the empty rows in front of the next data row, for every width and height |
| PngRows.PngRows.Case6 | extlib/libpng/pngpread.c:1133-1144 | a data row of pass 6: the rows it stands for and the empty rows in front of the next data row, for every width and height |
| PngRows.PngRows.ExpandRow | extlib/libpng/pngpread.c:980-1144 | the switch over the pass shows a data row and whatever rows without data follow it, up to the next data row |
| PngRows.PngRows.ProcessRow | extlib/libpng/pngpread.c:926-1152 | every data row is shown in its place, and the rows of each pass are reported once and in order |
| PngRows.PngRows.ReadImage | extlib/libpng/pngpread.c:926-1219 | for every width and height: in each pass that has columns the application sees every row once, in order, with the right data row or none, and exactly PNG_PASS_ROWS data rows are used |
| PvrtcTwiddle.TwiddleInverse | extlib/PowerVR/PVRTDecompress.cpp:455-500 | word positions are below the number of words, and the inverse gives the coordinates back |
| PvrtcTwiddle.UntwiddleInverse | extlib/PowerVR/PVRTDecompress.cpp:455-500 | every number below the number of words is the position of a word: the order is a bijection for square and for both kinds of rectangular textures |
| PvrtcTwiddle.TwiddleIsLow | extlib/PowerVR/PVRTDecompress.cpp:483-498 | interleaving the low bits and putting the rest of the longer coordinate on top gives that order |
| PvrtcTwiddle.WordOrderOneToOne | extlib/PowerVR/PVRTDecompress.cpp:463-500 | both formats use every word position at most once |
| PvrtcTwiddle.TwiddleUV | extlib/PowerVR/PVRTDecompress.cpp:455-500 | the loop over the bits computes the order |
| PvrtcColor.ColorA | extlib/PowerVR/PVRTDecompress.cpp:45-69 | the channels have 5, 5, 5 and 4 bits in both modes |
| PvrtcColor.ColorB | extlib/PowerVR/PVRTDecompress.cpp:71-98 | the same for colour B |
| PvrtcColor.Expansions | extlib/PowerVR/PVRTDecompress.cpp:59-66 | repeating the high bits maps the smallest and the largest value, and only these, to the smallest and the largest |
| PvrtcColor.ExpansionsRound | extlib/PowerVR/PVRTDecompress.cpp:59-66 | 3 and 4 bits become 31 sevenths and 31 fifteenths of them, rounded to the nearest number |
| PvrtcColor.BilinearRange | extlib/PowerVR/PVRTDecompress.cpp:126-188 | the weighted sum of four colours stays within 16 (or 32) times the range of a channel |
| PvrtcColor.ColorAtRange | extlib/PowerVR/PVRTDecompress.cpp:133-177 | an interpolated colour fits 8 bits |
| PvrtcColor.FlatColor | extlib/PowerVR/PVRTDecompress.cpp:100-190 | four equal colours give that colour everywhere: the weights add up to 16, or 32 |
| PvrtcColor.InterpolateColors | extlib/PowerVR/PVRTDecompress.cpp:100-190 | the incremental loops give the closed bilinear form at every pixel |
| PvrtcModulation.SetBitIs | extlib/PowerVR/PVRTDecompress.cpp:226-237 | the replaced mode bit is set or cleared and no other bit changes |
| PvrtcModulation.UnpackDirect | extlib/PowerVR/PVRTDecompress.cpp:258-277 | one bit for each pixel of a word |
| PvrtcModulation.UnpackStored | extlib/PowerVR/PVRTDecompress.cpp:200-256 | two bits for every other pixel of a word, with the mode bits replaced |
| PvrtcModulation.UnpackWord4 | extlib/PowerVR/PVRTDecompress.cpp:279-319 | the eighths of a 4bpp word, 14 for punch-through |
| PvrtcModulation.UnpackModulations | extlib/PowerVR/PVRTDecompress.cpp:192-320 | one word is unpacked and the values of the other words stay |
| PvrtcModulation.FactorsAreStored | extlib/PowerVR/PVRTDecompress.cpp:322-361 | every value that is read for a pixel has been stored by one of the four words, whatever their modes are |
| PvrtcModulation.Factor2 | extlib/PowerVR/PVRTDecompress.cpp:324-356 | a factor is at most 8 |
| PvrtcModulation.GetModulationValues | extlib/PowerVR/PVRTDecompress.cpp:322-361 | the factor of a pixel, from its own value or from its neighbours |
| Pvrtc.PixelInRange | extlib/PowerVR/PVRTDecompress.cpp:400-432 | for all four words every channel is in 0..255, so no cast cuts anything off |
| Pvrtc.GetDecompressedPixels | extlib/PowerVR/PVRTDecompress.cpp:363-440 | the tile between four words, pixel by pixel, in both formats: every pixel is DecodePixel, which PixelMixes and PvrtcFormat.PixelIs pin down |
| Pvrtc.PixelMixes | extlib/PowerVR/PVRTDecompress.cpp:400-432 | f eighths of colour B and the rest of colour A; with punch-through half of each and transparent, and black in the second format |
| Pvrtc.ColumnInverse | extlib/PowerVR/PVRTDecompress.cpp:502-521 | the quarters of a tile go to places that belong to no other tile |
| Pvrtc.TilesPartition | extlib/PowerVR/PVRTDecompress.cpp:442-579 | over the wrapped words every pixel of the image is in exactly one place of exactly one tile |
| PvrtcImage.MapDecompressedData | extlib/PowerVR/PVRTDecompress.cpp:502-521 | exactly the pixels of the tile are written |
| PvrtcImage.PvrtcDecompress | extlib/PowerVR/PVRTDecompress.cpp:523-583 | every pixel of the image is the one that the format gives for it, and the result is the size of the data |
| PvrtcImage.Decompress | extlib/PowerVR/PVRTDecompress.cpp:586-615 | the pixels of the format, of an image smaller than two words each way cut out of the smallest texture |
| PvrtcFormat.Factor2Is | extlib/PowerVR/PVRTDecompress.cpp:322-361 | the factor of a 2bpp pixel is that of the format, from bits of its own word and those of its neighbours |
| PvrtcFormat.Factor4Is | extlib/PowerVR/PVRTDecompress.cpp:279-319 | so is that of a 4bpp pixel |
| PvrtcFormat.ColorsAre | extlib/PowerVR/PVRTDecompress.cpp:100-190 | the two colours of a pixel are the weighted sums of the colours of the four words around it |
| PvrtcFormat.PixelIs | extlib/PowerVR/PVRTDecompress.cpp:400-432 | going tile by tile gives every pixel of the image as the format defines it, from bits of the words around it |
| PvrtcFormat.FactorSelects | extlib/PowerVR/PVRTDecompress.cpp:400-432 | factor 0 gives exactly the interpolated colour A and factor 8 exactly colour B; between them every channel lies between those of A and B; punch-through gives alpha 0, with black in the second format and half of each colour in the first |
| PvrtcFormat.MoreOfB | extlib/PowerVR/PVRTDecompress.cpp:413-419 | with the same two colours a larger factor never takes a channel away from that of colour B |
| PvrtcFormat.OpaqueA | extlib/PowerVR/PVRTDecompress.cpp:50-58 | an opaque colour A has its 5, 5 and 4 bits from bit 1 on, below its flag |
| PvrtcFormat.TranslucentA | extlib/PowerVR/PVRTDecompress.cpp:59-66 | a translucent one has 3, 4, 4 and 3 bits |
| PvrtcFormat.OpaqueB | extlib/PowerVR/PVRTDecompress.cpp:76-82 | an opaque colour B has 5, 5 and 5 bits below bit 31 |
| PvrtcFormat.TranslucentB | extlib/PowerVR/PVRTDecompress.cpp:83-94 | a translucent one has 3, 4, 4 and 4 bits; in the second format its low alpha bit is 1 |
| PvrtcFormat.WordStands | extlib/PowerVR/PVRTDecompress.cpp:455-500 | the word of a pixel is at the position made of the interleaved bits of its row and column in the first format, and row by row in the second, modulation data first |
| PvrtcFormat.RedTexture | extlib/PowerVR/PVRTDecompress.cpp:413-419 | words of opaque red and opaque blue with empty modulation data give a red image |
| PngMulDiv.Multiply | extlib/libpng/png.c:3398-3411 | the 16-bit partial products and the carry give the exact 64-bit product |
| PngMulDiv.Divide | extlib/libpng/png.c:3414-3439 | the shift-subtract loop gives the exact quotient, as a wrapped 32-bit number, and the exact remainder |
| PngMulDiv.PngMulDiv | extlib/libpng/png.c:3349-3460 | the integer branch, with its rounding and its overflow test |
| PngMulDiv.MulDivSucceeds | extlib/libpng/png.c:3441-3455 | success if and only if the rounded quotient fits a png_fixed_point, or the rounding carries out of 32 bits, which gives 0 |
| PngMulDiv.MulDivRounds | extlib/libpng/png.c:3441-3443 | the result is exact rounding, halves away from zero, if and only if the divisor is even or the remainder is not half of it rounded down; otherwise it is one too far from zero |
| PngMulDiv.MulDivIsClose | extlib/libpng/png.c:3336-3341 | the result times the divisor is within (divisor + 1) / 2 of the product |
| PngMulDiv.SmallQuotientFits | extlib/libpng/png.c:3336-3341 | every quotient below 2^31 - 1 fits |
| PngMulDiv.OneTooMany | extlib/libpng/png.c:3441-3443 | 3 * 5 / 1 gives 16 |
| PngMulDiv.LostOverflow | extlib/libpng/png.c:3441-3455 | 53353631 * 161 / 2 overflows and gives 0 with success |
| PngAscii.AsciiFromFixed | extlib/libpng/png.c:3232-3304 | the printed string begins with a minus sign if and only if the number is negative, reads back as exactly the number, has no digit to spare, and is found negative and not zero by png_check_fp_string just when it is; a buffer of at most 12 characters is an error |
| PngAscii.SplitDigits | extlib/libpng/png.c:3250-3262 | the digits, the lowest first, and the first one that is not zero |
| PngAscii.WriteFraction | extlib/libpng/png.c:3273-3289 | the fraction with its leading zeros and without zeros at its end |
| PngAscii.TextReads | extlib/libpng/png.c:3264-3292 | reading the printed magnitude gives the number back exactly, and no zeros end a fraction |
| PngAscii.AsciiIsNumber | extlib/libpng/png.c:3238-3240 | at most 12 characters, which png_check_fp_string accepts as a whole |
| PngAscii.AsciiSays | extlib/libpng/png.c:3238-3248 | all of this holds for the decimal text of every 32-bit number |
| PngFpNumber.CheckFpNumber | extlib/libpng/png.c:2711-2833 | the scanner stops at the end of the number in the right state |
| PngFpNumber.AcceptsNumbers | extlib/libpng/png.c:2711-2833 | the scanner accepts a whole string if and only if it is an optional sign, digits with at most one dot and at least one digit, and an optional exponent; it reports a negative number exactly for a leading minus, and a number that is not zero exactly when there is such a digit before the exponent |
| PngFpNumber.CheckFpString | extlib/libpng/png.c:2838-2849 | the state is returned when the number is followed by the end of the string or a NUL |
| PngFpNumber.FpStringIsNumber | extlib/libpng/png.c:2838-2849 | png_check_fp_string succeeds if and only if the text up to the NUL is such a number |

## Left out

- LZX DELTA and reset intervals: fixed to 0, as lzx_decompress does; lzxd_set_reference_data is not modelled, but the reference data that lzx_decompress puts in the window is. lzxd_set_output_length is not modelled: the length is given when the stream is opened.
- LZX input and output: a read gets at least one byte until the input ends or reading fails, a write always succeeds; a failing write and a negative request are not modelled.
- LZX number widths: match offsets, positions and frame numbers are below 2^31, so the signed comparison of a match offset and the truncation of end_frame to 32 bits are not modelled.
- HuffBuild.MakeDecodeTable: asks for nbits below 16 and for tree nodes that are numbered below 0xFFFF.
- LzxStream.LzxdStream.Decompress: the pretree table has 122 entries instead of 104, because a pretree that is refused can need them; the contract says that a call that succeeds leaves the entries behind the first 104 alone.
- LzxStream.LzxdStream: code lengths are sequences, and the bit buffer, window position and repeated offsets are fields all the time instead of local copies that are stored at the end of a call; the order of the counters' update and the write in a frame is exchanged.
- LzxStream.LzxdStream.constructor: asks for the sizes that lzxd_init checks; Init has the checks, memory that cannot be allocated is not modelled.
- LzxSpec.PositionBase: the table is given by the formula in the comment above it, and in closed form, and not number by number.
- PNG handlers, CRC and inflate: parameters of the reader; inflate is a step for every byte, and a handler takes the name, the data and the CRC of a chunk. Which chunks are handled as unknown is up to the handler.
- PNG warnings: they are not in the log; "Extra compression data in IDAT" does depend on how the input is cut. So does the choice between the two messages for a wrong signature, which are one error here.
- APNG: num_frames is 0 and the application is not aware of APNG; the reader stops at an fdAT behind image data that follows a finished image, where the code goes on to check its sequence number.
- PngQueue.PngQueue.SaveBuffer: memory that cannot be allocated and sizes that overflow are not modelled.
- png_process_data_pause and png_process_data_skip are not modelled.
- PngRows: filters, transformations and the copying of pixels in png_do_read_interlace and png_combine_row are not modelled, nor are images that are not interlaced, which have one pass.
- PvrtcImage.PvrtcDecompress: textures whose sizes are not powers of two times the word size are not modelled; the code asserts these sizes.
- PngMulDiv.PngMulDiv: signed numbers wrap around where C leaves the result undefined (1 << 31, and the negation of -2^31); operands of -2^31 and the floating-point branch are not modelled.
- png_ascii_from_fp, gamma tables, colour spaces, ICC profiles, the sRGB tables and the info structure are not modelled.
- Allocation, error reporting and the memory files of xenia_lzx.c and system.c are not modelled.
- inih is not modelled.
