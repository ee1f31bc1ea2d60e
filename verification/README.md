# A verified model of the codecs and of the reference counting of a lightmap denoiser

The denoiser keeps lightmaps in OpenEXR files. It compresses them with the PIZ, RLE and ZIP codecs of
`tinyexr.h` and `miniz.c`, and passes them to a library whose objects are counted by intrusive references
(`oidn/common/ref.h`). This project models those parts in Dafny and proves what they are for:

- **PIZ** (`tinyexr.h`). Lines are regrouped by channel, values numbered by a lookup table, channels transformed
  by a wavelet in place, and the result coded with canonical Huffman codes and a run symbol. Decompressing gives
  back every block of 1 to 2^28 bytes, and larger ones as long as the coded bits can be counted in an `int`
  (`Piz.PizRoundTrip`). The encoder's tree is built on linked lists in two arrays, the decoder uses a 14-bit table
  and lists of long codes. That no code is longer than 44 bits follows from the weight of the tree.
- **RLE** (`tinyexr.h`). Bytes are shuffled, replaced by differences and run-length coded. Some blocks do not come
  back; exactly which is proved (`Rle.RoundTrip`).
- **Chunks** (`tinyexr.h`). Worker threads share the blocks of an image through an atomic counter; whatever the
  interleaving, every entry of the file's offset tables leads to the bytes that the sequential loop would have
  written (`ChunkFile.EntriesAfterRun`, `ChunkFile.BlockInFile`).
- **Deflate** (`miniz.c`, RFC 1950 and RFC 1951). The compressor is modelled from the parser over a mirrored ring to
  the zlib trailer, with codes of minimum redundancy computed in place, length limiting, run-length coded code
  lengths, stored blocks as a fallback, and both versions of the match search and of the token coder; the inflater
  with its lookup table and tree of long codes. For every input and every setting, what is compressed decompresses to
  the input (`Zlib.RoundTrip`), and every other zlib stream is read too (`Zlib.Decompress`). The hash chains lead to
  every position with the same hash, so repetitions are found (`TdeflParser.RepeatFound`), and the form of every block
  is accounted for (`Zlib.CompressMem`).
- **The name index of archives** (`miniz.c`). Looking a name up in the sorted index and scanning for it find it or
  not alike (`ZipIndex.LocateBothWays`).
- **Reference counting** (`oidn/common/ref.h`, `oidn/core/api.cpp`, `oidn/core/cpu_buffer.h`). A state machine
  whose threads copy, move, clear and release references in any interleaving: counts are exact, objects are
  destroyed once and not touched afterwards, and a buffer's device outlives it (`RefCount`). Every operation ends, and
  then has done what it is for (`RefCountRuns`).

Code that changes arrays or fields in place is modelled by methods over arrays and by classes
(`LzCodeBuf.CodeBuf`, `Tdefl.Compressor`); threads are modelled as state machines over their steps. Compressors state
of which form their output is, and decompressors that they invert every output of that form. So the two sides share
nothing but the form, and it does not matter how ties between equal weights are broken.

Integers are unbounded except where the width matters: the accumulators of the PIZ coder wrap at 64 bits, wavelet
values at 16 bits, the checksum has 32 bits, the counter of an object has 64, and positions in hash chains have 16.
Bits are lists of Booleans, first bit first.

Modules by topic:

| topic | modules |
|---|---|
| shared | Options, Powers, BitStrings, LsbBits, CodeCost, CodeEntries, HuffmanTrees |
| PIZ Huffman | HufCodes, HufCanonical, HufForest, HufLists, HufEncTable, HufBitIO, HufPack, HufItems, HufSizes, HufDecTable, HufDecode, HufCoder |
| PIZ | WaveletBasis, WaveletBlocks, WaveletGrid, Wavelet, PizLut, PizLayout, PizPlanes, Piz |
| RLE, chunks | RlePackets, Rle, ChunkWorkers, ChunkOffsets, ChunkFile |
| deflate codes | MinRedForest, MinRedDepths, MinRedundancy, TdeflRadix, TdeflLimit, TdeflTable, TdeflCodes, DeflateCodes, InflateTables |
| deflate tokens | LsbSink, LzTokens, LzSymbols, LzCodeBuf, LzReader, LzEmit, LzWindow, LzSearch, LzHash, LzChains, TdeflParser |
| deflate blocks | CodeLengths, DynamicHeader, StaticBlock, DeflateStream, TdeflBlocks, TdeflFlush, Tdefl |
| inflate, zlib | InflateReader, InflateCodes, InflateHeader, InflateStream, Adler32, Zlib |
| others | ZipNames, ZipIndex, RefCount, RefCountRuns |

## Model

| member | source | states |
|---|---|---|
| Piz.PizRoundTrip | tinyexr.h:2944-3180 | Decompressing what compressing made returns the block whenever the block was kept as it is or the bits of the Huffman stream at its end can be counted in an int; that is every block of 1 to 2^28 bytes. An empty block is refused. |
| Piz.CompressPiz | tinyexr.h:2944-3062 | The coded form is made: the words regrouped, numbered, transformed plane by plane and coded at least cost. The result is that form if it is shorter than the block, otherwise the block; it is a PIZ form if the bits of the Huffman stream fit an int, and always up to 2^28 bytes. |
| Piz.DecompressPiz | tinyexr.h:3064-3180 | Every PIZ form of a block of the expected size is decompressed to that block, whoever made it. |
| Piz.Deinterleave | tinyexr.h:2959-2997 | Reading the channels' regions line by line gives back the words of the block. |
| Piz.Interleave | tinyexr.h:3165-3177 | The lines are copied back in the order of the file: the inverse of the regrouping. |
| PizLayout.BlockLines | tinyexr.h:2964-2997 | The lines of a block lie apart in the buffer, fit it, and account for every word of it. |
| PizLayout.GatherScatter | tinyexr.h:2984-2997 | Reading pairwise disjoint segments in order yields what was written to them, whatever was there before. |
| PizLayout.WordPlace | tinyexr.h:2959-2997 | Where every word goes: word j of the sample at (x, y) of channel i stands in the file in line y behind the samples of the channels before, and regrouped in its channel's region at the number of the sample; the plane for component j has it at (x, y). |
| PizPlanes.PlanesRoundTrip | tinyexr.h:3027-3157 | Transforming all components of all channels and back changes nothing when no value exceeds the maximum, because no plane touches another. |
| PizPlanes.PlaneAlone | tinyexr.h:3027-3034 | However many planes are transformed one after the other, in its own region each looks as if it alone had been. |
| PizLut.LutRoundTrip | tinyexr.h:2880-2934 | The reverse table undoes the forward table on the data both were made for, and no number exceeds the maximum that both computations return. |
| PizLut.BitmapFromData | tinyexr.h:2880-2900 | The bitmap has exactly the bits of the values that occur, zero left out, and the reported bytes enclose all that are not zero. |
| PizLut.HasMeans | tinyexr.h:2880-2914 | The bit that the bitmap has for a value is the one that counts for 2^k in its byte. |
| PizLut.ForwardLutFromBitmap | tinyexr.h:2902-2914 | Each value present is numbered by how many smaller ones are; the result is the largest number. |
| PizLut.ReverseLutFromBitmap | tinyexr.h:2916-2929 | Each number leads to the value that has it; the result equals that of the forward table. |
| Wavelet.WaveletRoundTrip | tinyexr.h:1734-1956 | For every plane, all sizes and all offsets without aliasing, decoding with the same maximum undoes encoding on every buffer whose plane cells do not exceed it: any 16-bit data from 2^14 on, the 14-bit mode below. |
| Wavelet.DecodeUndoesEncode | tinyexr.h:1734-1956 | Decoding from the coarsest level down to any level undoes encoding from that level on, given only that the cells still to be transformed are in range. |
| Wavelet.Wav2Encode | tinyexr.h:1734-1837 | In place and with the source's pointers, the loops do what encoding level by level from the finest one does to the buffer. In 14-bit mode a plane of one value becomes zeros, except at the cells that no level averages any further, which keep the value. |
| Wavelet.FlatPlane | tinyexr.h:1750-1828 | In the plain basis a plane of one value becomes zeros at every cell that some level averages away, and keeps the value at all others. |
| Wavelet.Wav2Decode | tinyexr.h:1843-1956 | In place, going down from the coarsest level, the loops do what decoding does, and so undo encoding; the search for the coarsest level skips only levels at which there is nothing to do. |
| WaveletBasis.Invert16 | tinyexr.h:1706-1728 | The modulo basis is invertible on all pairs of 16-bit values. |
| WaveletBasis.Invert14 | tinyexr.h:1668-1693 | The plain basis is invertible exactly where it is used: when the difference fits a short. |
| WaveletBasis.PlainMeans | tinyexr.h:1668-1678 | Of any two values, as signed 16-bit numbers, the low output is the mean rounded down, and the high output the difference modulo 65536. |
| WaveletBasis.PlainBack | tinyexr.h:1680-1693 | From any low and high input two values come back that differ by the high one and have the low one as their mean rounded down. |
| WaveletBasis.ModuloMeans | tinyexr.h:1706-1718 | Modulo 65536, the high output is the first value plus 32768 less the second, and the low output the second plus half of the high one. |
| WaveletBasis.FourMeans | tinyexr.h:1781-1785 | Of four values in the plain basis come the mean of the means of both pairs, their difference, the mean of the differences, and the difference of those. |
| WaveletBasis.InvertFour | tinyexr.h:1781-1791 | Four values in range are recovered from their transform, and the one that goes on to the next level is in range again. |
| WaveletBlocks.BlockAlone | tinyexr.h:1764-1828 | After all blocks of a level, each looks as if it alone had been worked on. |
| WaveletGrid.PlacesApart | tinyexr.h:1764-1828 | Different blocks of one level have no cell in common. |
| HufCoder.HufRoundTrip | tinyexr.h:2784-2871 | For every non-empty input, if the coded bits can be counted in an int, uncompressing what compressing made returns the input; so it does for up to 126,322,566 values. |
| HufCoder.HufCompress | tinyexr.h:2784-2812 | The output is a stream of header, packed code lengths and coded items that expand to the input, with at most 17 bits per value and 17 more. The lengths cost least for how often the values occur, the range of symbols is tight, and the longest runs are repeated where that is not longer. |
| HufCoder.HeaderMeans | tinyexr.h:2764-2809 | The 20 bytes of the header are, with the low byte first, the range of symbols, the size of the packed lengths in bytes, the number of coded bits, and zero. |
| HufCoder.HufUncompress | tinyexr.h:2814-2871 | Every such stream whose bits fit an int fills the array with exactly the input; no input at all is refused. |
| HufCoder.StreamSize | tinyexr.h:2802-2812 | A stream whose bits fit an int can be read back, and every stream of at most 2^28 bytes is one. |
| HufItems.HufEncode | tinyexr.h:2519-2560 | The bits are those of symbols and repetitions that expand to the data, padded to whole bytes; the longest runs of up to 256 values are coded from left to right, with never more bits than coding each value by itself. |
| HufItems.RunIsShort | tinyexr.h:2497-2513 | A run is coded as a repetition only where that is not longer. |
| HufSizes.SeventeenBits | tinyexr.h:2082-2243 | With lengths of minimum cost the data takes at most 17 bits per value, and 17 for the run symbol: a fixed-length code is never beaten. |
| HufBitIO.OutputBits | tinyexr.h:1988-1996 | Appends exactly the given bits to what was written, although the accumulator wraps at 64 bits. |
| HufBitIO.GetBits | tinyexr.h:1998-2006 | Reads the next bits and leaves those behind them; reads beyond the end yield zeros. |
| HuffmanTrees.HeavyHeight | tinyexr.h:2171-2233 | A tree in which each pair joined was the lightest one has height at most 44 when it weighs at most 2^31, and at most 22 below 2^16. |
| HufForest.GrownTree | tinyexr.h:2171-2233 | However ties are broken, the tree that is left when the two lightest are joined again and again costs no more than any decodable code for the counts. |
| HufEncTable.HufBuildEncTable | tinyexr.h:2082-2243 | The range of the occurring symbols, and for them and the run symbol a code table with lengths of Kraft sum one, at most 44 bits, and of minimum cost. |
| HufEncTable.MergeForest | tinyexr.h:2166-2233 | Counting bits along linked lists gives every symbol its depth in the tree that the merging builds. |
| HufEncTable.MergeLists | tinyexr.h:2188-2232 | Walking two lists adds one to each length in them and to no other, and links the second list behind the first. |
| HufEncTable.DepthsBelow58 | tinyexr.h:2203-2228 | Below 2^31 counted values no length in the lists about to be merged exceeds 43, so the assertions never fail. |
| HufEncTable.TreeGivesLengths | tinyexr.h:2171-2233 | Lengths recorded as depths in the single tree that is left have Kraft sum one, belong to the occurring symbols only, and cost no more than any other decodable lengths. |
| HufCanonical.HufCanonicalCodeTable | tinyexr.h:2028-2067 | In place of each length stands the length together with the canonical code. |
| HufCodes.CodeFits | tinyexr.h:2028-2067 | For lengths with Kraft sum one, the canonical code of each used symbol is below two to the power of its length. |
| HufCodes.PrefixFree | tinyexr.h:2028-2067 | For lengths with Kraft sum one, two used symbols whose canonical codes both begin the same bit string are the same symbol. |
| HufCodes.CanonicalRule | tinyexr.h:2028-2067 | The first of the longest codes is zero, codes of one length count up with their symbols, and the first code of a shorter length is what follows the last longer one, cut to that length. |
| HufPack.HufPackEncTable | tinyexr.h:2265-2304 | The lengths of the range as fields of 6 bits, runs of zeros shortened, padded to whole bytes. |
| HufPack.FieldForm | tinyexr.h:2250-2304 | A length stands for itself in six bits; 59 to 62 stand for two to five symbols without a code, and 63 with eight bits for six to 261; such runs are as long as can be. |
| HufPack.HufUnpackEncTable | tinyexr.h:2310-2362 | Every packed table is unpacked to the table it came from, and the position is just behind it; on failure the position has not moved. |
| HufDecTable.NoCollision | tinyexr.h:2391-2473 | Two symbols never claim the same 14-bit window as a short code, nor one as a short and the other as the beginning of a long code. |
| HufDecTable.HufBuildDecTable | tinyexr.h:2391-2473 | On the table of a complete code no error is reported, and each window leads to the one short code it begins with or to the list of the long codes that begin with it. |
| HufDecode.Resolve | tinyexr.h:2666-2725 | With 14 or more live bits the symbol that is found, by the window or in a list of long codes, is the one whose code comes next. |
| HufDecode.FindLong | tinyexr.h:2692-2722 | Searching a list of long codes, loading input as their lengths ask for it, finds the one that comes next and loses no bits. |
| HufDecode.HufDecode | tinyexr.h:2641-2755 | Short codes, long codes, repetitions and the tail together yield exactly the values that the coded items expand to. |
| Rle.RoundTrip | tinyexr.h:1478-1609 | A block comes back, and unchanged, if and only if it is not empty and its prepared form is not a single run of 3 to 128 equal bytes. |
| Rle.NotEveryBlock | tinyexr.h:1556-1558 | Three bytes of value 128 are such a block: coded in two bytes, which the decoder refuses. |
| Rle.CompressRle | tinyexr.h:1478-1543 | The result is the packets of the prepared block, or the block itself if they are not shorter. |
| Rle.DecompressRle | tinyexr.h:1545-1609 | A form the coder made is accepted exactly if it is the block itself or longer than two bytes, and then gives the block. |
| Rle.SumsOfDifferences | tinyexr.h:1512-1585 | Adding up neighbours modulo 256 undoes taking differences, for all byte strings. |
| Rle.UnshuffleShuffled | tinyexr.h:1488-1606 | Taking bytes from both halves in turn undoes dealing them out. |
| RlePackets.RleCompress | tinyexr.h:1390-1432 | The packets expand to the input in at most n + n/127 + 1 bytes. Runs go as far as they can, three equal bytes never begin inside literals, and these end only before such three, when full, or at the end. |
| RlePackets.RleUncompress | tinyexr.h:1441-1470 | Packets that fit are expanded to what they mean, and the output never exceeds the limit. |
| RlePackets.FitsBuffer | tinyexr.h:6520-6521 | The size that the caller reserves covers the coder's worst case if and only if there are two bytes or more. |
| ChunkWorkers.WorkIsDone | tinyexr.h:6833-6904 | For every number of threads and every interleaving of their steps, when all have stopped each block was encoded exactly once, the blocks are those of the sequential loop, and the error flag is set just when some block failed. |
| ChunkWorkers.RunsEnd | tinyexr.h:6833-6904 | Every run makes at most three steps for each block and one for each thread, and none gets stuck before all threads have stopped. |
| ChunkWorkers.RowsCovered | tinyexr.h:6850-6855 | Every scanline lies in exactly one block, and no block is empty. |
| ChunkWorkers.ThreadsMeans | tinyexr.h:6838 | There are as many threads as the hardware runs, at least one, but no more than blocks. |
| ChunkOffsets.EncodeOffsets | tinyexr.h:6771-6912 | Level by level and row by row, or for scanlines in one row, the offsets are where the chunks of the part begin, and the total is where the last one ends. |
| ChunkOffsets.Save | tinyexr.h:7176-7259 | The file is the header, the tables and the chunks with their part numbers; the total computed beforehand is its length. |
| ChunkOffsets.EntryPointsAtChunk | tinyexr.h:7176-7259 | Each table entry, read as eight bytes, is the position of its chunk, or of the part number in front of it. |
| ChunkOffsets.LowByteFirst | tinyexr.h:7176-7259 | Byte i of a number in the file counts for the i-th power of 256. |
| ChunkFile.EntriesAfterRun | tinyexr.h:6833-7259 | After any run without a failing block, each table entry of the saved file leads to what encoding its block sequentially gives. |
| ChunkFile.BlockInFile | tinyexr.h:6833-7259 | So every block can be found in the file: where its table entry points, its part number if there are several parts, its first scanline, the size of its data and the data are read. |
| MinRedundancy.CalculateMinimumRedundancy | miniz.c:777-830 | In place, ascending counts below 2^16 in sum become code lengths that descend, have Kraft sum exactly one, are at most 22, and cost no more than any decodable code; the symbols stay where they are. |
| MinRedundancy.MakeNodes | miniz.c:787-806 | After the first phase the cells of inner nodes hold their parents in a tree made by joining the lightest two each time, although parents overwrite counts in the same array. |
| MinRedundancy.FindDepths | miniz.c:807-809 | After the second phase the cells of inner nodes hold their depths in the tree. |
| MinRedundancy.HandDown | miniz.c:810-829 | The third phase turns the depths of inner nodes into lengths of leaves: at the end these descend, have Kraft sum one, and cost as much as the inner nodes weigh together. |
| CodeCost.JoinLightest | miniz.c:787-806 | Joining the two lightest weights costs exactly their sum: if no code for the joined weights is cheaper than c, none for the weights is cheaper than c plus both. |
| TdeflRadix.RadixSortSyms | miniz.c:743-774 | One of the two buffers holds the same entries in ascending order, also when the second pass is skipped. |
| TdeflLimit.EnforceMaxCodeSize | miniz.c:837-859 | Lengths of Kraft sum one become lengths up to the limit whose Kraft sum is one, for as many codes. Longer ones are cut to the limit, and for that the longest of the shorter codes are lengthened: as long as codes of i bits or more can provide what is needed, no number of codes of fewer than i bits changes. |
| TdeflLimit.FoldLimiting | miniz.c:843-846 | Counting all longer codes as codes of max bits makes the sum at least one, and by less too large than there are codes of max bits. |
| TdeflLimit.Round | miniz.c:847-858 | One code at the limit less, and one of the longest codes below the limit becomes two that are one bit longer; all other numbers stay. |
| TdeflTable.MinimumTally | miniz.c:884-889 | Lengths of minimum redundancy, tallied, have Kraft sum one: the histogram meets what limiting it asks for. |
| TdeflCodes.OptimizeHuffmanTable | miniz.c:861-912 | Exactly the occurring symbols get codes, within the limit, canonical and bit-reversed; the lengths are complete if there are two or more. What occurs more often has no longer code; the numbers of codes are those of minimum redundancy cut to the limit, and the cost is the least if nothing had to be cut. |
| LsbBits.Reverse | miniz.c:904-910 | The loop reverses the bits of a code. |
| StaticBlock.StaticComplete | miniz.c:1067-1083 | Both sets of fixed lengths have Kraft sum one. |
| StaticBlock.StartStaticBlock | miniz.c:1067-1087 | The codes are the canonical ones of the fixed lengths, and the block type is written. |
| CodeLengths.PackCodeSizes | miniz.c:1005-1040 | The packed symbols expand to the lengths, never begin with a repetition, are counted as they occur, and take no more bytes than there are lengths. They are the ones that take the longest repetitions from left to right. |
| CodeLengths.ItemForm | miniz.c:930-976 | Symbol 16 with two extra bits repeats the last length three to six times, 17 with three stands for three to ten zeros, and 18 with seven for 11 to 138. |
| DynamicHeader.SwizzleOrder | miniz.c:978 | The lengths for the packed symbols come in the order 16, 17, 18, 0, and then 8, 7, 9, 6 and so on outwards. |
| DynamicHeader.CodeTheLengths | miniz.c:1005-1064 | The packed lengths of both codes have a code of at most 7 bits that gives every symbol in use a length, and what is left out at the end is zero. |
| DynamicHeader.StartDynamicBlock | miniz.c:980-1065 | Codes for the counts, and a header from which they can be rebuilt, are written bit for bit. Nothing in it is longer than needed: thrifty codes for the counts and for the packed lengths, and no trailing zeros beyond the least number of lengths. |
| InflateHeader.ReadCodeLengths | miniz.c:2583-2610 | Any packed lengths that the coder may write are decoded to the lengths, to the last bit; whatever is accepted has exactly the announced number of entries. |
| InflateHeader.ReadDynamic | miniz.c:2507-2610 | A header is read back: both tables get the lengths that were written, and the position is behind it. |
| DeflateCodes.CodeAhead | miniz.c:2532-2548 | For lengths with Kraft sum one, any 15 bits begin with the code of exactly one symbol. |
| DeflateCodes.CanonicalRule | miniz.c:892-910 | The first of the shortest codes is zero, codes of one length count up with their symbols, and the first code of a longer length is what follows the last shorter one, with zeros behind it. |
| InflateTables.BuildTables | miniz.c:2521-2582 | Tables are built exactly for complete codes and codes of at most one symbol; all their indices are in range. |
| InflateTables.NodesFit | miniz.c:2561-2581 | The tree of long codes never needs more than its 576 cells. |
| InflateTables.HuffDecode | miniz.c:2357-2389 | A code that comes next is decoded to its symbol and its length; the walk ends whatever comes next. |
| InflateTables.BuildAndDecode | miniz.c:2357-2582 | For every complete code and every bit buffer, the decoded symbol is one whose code begins the buffer, and exactly its length is consumed. |
| LzEmit.CompressBoth | miniz.c:1092-1231 | On every token buffer the 64-bit loop and the portable one leave the same bytes and the same waiting bits. |
| LzEmit.CompressFast | miniz.c:1092-1184 | Collecting up to three literals before a store sends exactly the bits of the tokens and of the end of the block; every store demands, and finds, at most 64 waiting bits. |
| LzEmit.CompressPortable | miniz.c:1186-1231 | The loop that stores byte by byte sends exactly the bits of the tokens and of the end of the block. |
| LzCodeBuf.CodeBuf.RecordLiteral | miniz.c:1679-1690 | Appends a literal to the tokens that the buffer stands for, flag and count included. |
| LzCodeBuf.CodeBuf.RecordMatch | miniz.c:1692-1718 | Appends a match to the tokens that the buffer stands for, flag and counts included. |
| LzSymbols.LengthBack | miniz.c:675-694 | For every match length the decoder's base and extra bits give back the length from which the coder took its symbol. |
| LzSymbols.DistanceBack | miniz.c:696-741 | For every match distance the decoder's base and extra bits give back the distance from which the coder took its symbol. |
| LzSymbols.LengthRule | miniz.c:675-694 | Lengths 3 to 10 have symbols 257 to 264, and 258 has 285 without extra bits; each number e of extra bits from one to five serves four symbols for lengths less three from 2^(e+2) on. |
| LzSymbols.DistanceRule | miniz.c:696-741 | Distances 1 to 4 have symbols of their own; each number e of extra bits from one to 13 serves two symbols for distances less one from 2^(e+1) on. |
| LzSearch.FindMatch | miniz.c:1396-1447 | The version that compares two bytes at a time finds exactly what the search along the hash chain finds. |
| LzSearch.FindMatchBytes | miniz.c:1449-1491 | The version that compares single bytes finds exactly what the search along the hash chain finds, and so the same match as the other version on every window, chain and setting. |
| LzSearch.BestReal | miniz.c:1396-1491 | Whatever the hash chains hold, a match that is found is really there, reaches back no further than allowed, is longer than what was asked for and not longer than allowed. |
| LzSearch.NoneLonger | miniz.c:1396-1491 | No match at one of the first links of the chain, as many as there are probes less one, is longer than the one that is found, and if one is as long it is not met before: testing the two last bytes first misses nothing. |
| LzWindow.RingAt | miniz.c:1738-1743 | From any position in the window 258 bytes can be read without wrapping around, thanks to the mirrored cells. |
| LzHash.HashBit | miniz.c:1744-1764 | Bit k of the hash of three bytes is the parity of bit k of the last, bit k - 5 of the middle and bit k - 10 of the first one. |
| TdeflParser.Insert | miniz.c:1745-1746 | The cell of the position gets what the hash led to before, and the hash then leads to the position. |
| TdeflParser.FillRolling | miniz.c:1730-1750 | With the hash rolled on byte by byte, every byte goes into the ring, and afterwards the chains hold every position from which three bytes are there. |
| TdeflParser.FillFirst | miniz.c:1753-1769 | So they do when the hash is computed anew for each position, once three bytes are there. |
| LzChains.ChainsGrow | miniz.c:1745-1766 | If every hash leads to the latest position with it, and every position still in the ring to the latest one before with the same hash, all modulo 65536, then that stays so when a position is put in front. |
| LzChains.AllMet | miniz.c:1412-1470 | Going back from one such position to the one before meets every earlier position with the same hash. |
| LzChains.FollowBack | miniz.c:1412-1470 | The links followed from the current position lead to the cells of those positions, as far as the window reaches and none of them is a multiple of 65536. |
| LzChains.NoneMissed | miniz.c:1396-1491 | So no match at one of those positions, as many as there are probes less one, is longer than what the search finds, and none that is as long is nearer. |
| TdeflParser.FindCandidate | miniz.c:1774-1804 | In all modes the candidate is a real match at the current position or none. Along hash chains it is the longest match at the earlier positions with the same hash, of those as long the nearest, unless a rule drops it as short and far, as reaching to the beginning of the ring, or as filtered; with run lengths only it is the longest run of the byte before; with raw blocks there is none. |
| TdeflParser.BestLongest | miniz.c:1396-1491 | On a ring and chains that hold the input, the search finds a match that is real and at least as long as all those that the chain leads to, or none if none is longer than what it has to beat. |
| TdeflParser.RepeatFound | miniz.c:1797-1804 | If there is a match at an earlier position with the same hash, and the chain leads there before the probes run out, the candidate is a match at least as long, and if it is as long no further back, unless a rule drops it. |
| TdeflParser.LatestFound | miniz.c:1797-1804 | In particular, if the latest position before with the same hash has the same three bytes, is in the window and not a multiple of 65536, a match of at least three bytes is found, unless a rule drops it. |
| TdeflParser.Record | miniz.c:1805-1847 | Whatever is recorded or put off, the tokens expand to the input up to the byte that is held back. What is recorded, what is put off, and how far the parser moves are given for each candidate: a match put off is recorded unless a longer one begins a byte later, in whose favour a literal takes its place; a greedy parser puts none off. |
| TdeflParser.MatchConserved | miniz.c:1812-1835 | Recording a real match extends what the tokens expand to by exactly its bytes, overlap included. |
| TdeflBlocks.CompressBlock | miniz.c:1234-1241 | A block in fixed codes, or in codes of its own, as asked for, is appended that the decoder can read and that holds the recorded tokens; codes of its own are thrifty for the counts of the tokens. |
| TdeflBlocks.AllCountable | miniz.c:1679-1718 | A full buffer holds few enough tokens that all counts and their sum, with the end of the block, stay below 2^16. |
| TdeflFlush.EmitBlock | miniz.c:1258-1303 | The block that is appended, coded or raw, stands for exactly the bytes of the recorded tokens. It is raw if that is forced or if its codes would not be shorter, in both cases only if the ring holds all of its bytes; otherwise it has fixed codes exactly if these are forced or it is short. Then a coded block takes less than its bytes, and a raw one at most 42 bits more. |
| Tdefl.Compressor.FlushBlock | miniz.c:1243-1348 | The recorded tokens become a block, for which it is noted why it ended and why it has its form; the invariant of the compressor is kept, and after a flush no bits wait. |
| Tdefl.Compressor.CompressNormal | miniz.c:1720-1863 | For every input, however it is split over calls, all of it is taken in and the invariant is kept: the tokens of all blocks and those recorded are what the parser decided on, each decision sees a full lookahead or, with a flush, the rest of the input, and the chains hold every position since the window was cleared. A block that ends by itself stands for more than 31 KiB, and its code buffer is full or hardly smaller, or raw blocks are forced, which then always find their bytes in the ring. |
| Tdefl.Compressor.Compress | miniz.c:1886-1952 | After a flush the blocks stand for all input so far and no bits wait, and a full one clears the window; after the last call the stream is complete, and calls out of order are refused without effect. Decisions, blocks and their reasons are only added to. |
| InflateCodes.InflateTokens | miniz.c:2612-2780 | The codes of any tokens that do not reach back too far are decoded to what the tokens expand to, up to the end of the block and no further. |
| InflateStream.InflateBlock | miniz.c:2437-2781 | A stored block with a confirmed length, a block in fixed codes and one in codes of its own are read to what they stand for. The fourth kind is refused, and so is a stored block unless its length is followed by its complement and so many bytes. |
| InflateStream.ReadStored | miniz.c:2441-2505 | A stored block is read to its bytes, and accepted only if at the next byte boundary its length is followed by its complement and so many bytes. |
| InflateStream.InflateBlocks | miniz.c:2437-2782 | Any sequence of such blocks of which the last one says so is decoded to what it stands for, and read exactly to its end. |
| Zlib.RoundTrip | miniz.c:1720-2861 | For every input and all parser settings (greedy or lazy, run lengths only, filtered, fixed or raw blocks, any number of probes, with and without zlib header), what is compressed decompresses to the input. |
| Zlib.CompressMem | miniz.c:2006-2019 | The result is a stream, or a zlib stream with its checksum, that stands for the data; its tokens are those of decisions that each saw a full lookahead or the rest of the data, and each block has the form that the rules for its tokens demand. |
| Zlib.Decompress | miniz.c:2391-2861 | Every stream of blocks behind any header that is a multiple of 31, names no dictionary and has method 8, followed by the checksum, is decompressed to what its blocks stand for and read exactly to its end, whatever follows; so is one without header. Any other header is refused, and whatever is accepted ends with the checksum of the output. |
| Adler32.Adler | miniz.c:40-66 | With remainders taken every 5552 bytes and 32-bit arithmetic, the result is the checksum defined byte by byte; the loop ends although the first block may be empty. |
| Adler32.NoOverflow | miniz.c:43-62 | After up to 5552 bytes neither sum exceeds 32 bits. |
| Adler32.Compositional | miniz.c:40-66 | The checksum of a concatenation is that of the second part, continued from the first. |
| Adler32.ChecksumIs | miniz.c:40-66 | The low half is one more than the sum of the bytes, the high half their number and the sum in which the last byte counts once, the one before twice and so on, both modulo 65521. |
| ZipIndex.SortByFilename | miniz.c:3452-3502 | The heap sort leaves the same entries, in the order of their lower-case names. |
| ZipIndex.SiftDown | miniz.c:3469-3479 | Sinking repairs the heap above one position and moves nothing outside it. |
| ZipIndex.BinarySearch | miniz.c:4273-4311 | On an index in order, an entry is found if and only if some entry has the name; what is found has it. |
| ZipIndex.LinearScan | miniz.c:4341-4384 | The scan finds an entry if and only if some entry has the name; it finds the first one. |
| ZipIndex.LocateBothWays | miniz.c:4322-4385 | Index and scan find a name or neither does; both results have the name, and the one by index is not before the one by scan. |
| ZipNames.NameCompare | miniz.c:4256-4271 | The sign of the result orders the names in lower case. |
| ZipNames.LowerMeans | miniz.c:3112 | Two names are the same in lower case exactly if they are as long and byte by byte the same or both cases of one of 26 letters; no capital letter is left. |
| RefCount.CountIsOwners | oidn/common/ref.h:18-113 | In every state of every run the count of an object is the number of references, unreleased handles and half-finished copies that stand for it; it is destroyed at most once, and then nothing stands for it. |
| RefCount.DestroyedOnce | oidn/common/ref.h:24-40 | A step that destroys an object is taken by a thread that has it to destroy since taking its count to zero; at that step the count is zero and the object has not been destroyed before. |
| RefCount.QuietMeansClean | oidn/common/ref.h:24-40 | When all threads are between operations, exactly the objects that nobody owns have been destroyed. |
| RefCount.DeviceAlive | oidn/core/cpu_buffer.h:13-24 | As long as a buffer has not been destroyed, neither has its device. |
| RefCount.NoDanglingAccess | oidn/common/ref.h:18-35 | A step that changes a counter changes it by one, up or down and never around zero, and the object has not been destroyed. |
| RefCount.StepInv | oidn/common/ref.h:55-104 | Each step of copying, moving, clearing, releasing, making or destroying keeps the invariant of the protocol. |
| RefCountRuns.OperationDone | oidn/common/ref.h:55-105 | Over every run, whatever other threads do meanwhile: when a copy is finished, both references are what the source was when it began; after a move the destination is that and the source null; after a clear the reference is null; and a new object is what its reference refers to, a buffer with its device. |
| RefCountRuns.OnlyItsOwn | oidn/common/ref.h:55-105 | A step changes no pointer but those that the operation of its thread writes. |
| RefCountRuns.Untouched | oidn/common/ref.h:55-105 | A reference that no thread at work writes keeps its pointer over any stretch of a run. |
| RefCountRuns.CanGoOn | oidn/common/ref.h:18-105 | A thread in the middle of an operation can always take a step, whatever the others do: nothing waits. |
| RefCountRuns.OperationEnds | oidn/common/ref.h:18-105 | Within an operation a thread takes at most three steps after the first, and one for every object that is destroyed meanwhile. |

## Findings

What the code does that its documentation or its callers do not say:

- Some RLE blocks do not come back. The decoder refuses anything of at most two bytes that is not a raw block
  (`tinyexr.h:1556`), but a block whose prepared form is a single run of 3 to 128 equal bytes is coded in two bytes.
  `Rle.RoundTrip` gives the exact condition, checkable before the call (`Rle.OneRun`); `Rle.NotEveryBlock` gives the
  block 128, 128, 128.
- The buffer that the caller of the RLE coder reserves, one and a half times the input (`tinyexr.h:6520-6521`), covers
  the worst case if and only if the input has two bytes or more (`RlePackets.FitsBuffer`); for a single byte the coder
  writes two bytes where there is one.
- PIZ is only known to come back as long as the number of coded bits fits an `int`. `hufEncode` returns it as one, and
  `hufUncompress` reads it as one. `HufCoder.HufRoundTrip` and `Piz.PizRoundTrip` have that as their condition;
  `HufCoder.StreamSize` shows that it always holds when the compressed block has at most 2^28 bytes.
- `hufUncompress` ignores whether unpacking the table, building the decoding table and decoding succeed
  (`tinyexr.h:2849-2859`), and `DecompressPiz` ignores the result of `hufUncompress` (`tinyexr.h:3122`): damaged data
  is reported as decompressed. The methods of the model ignore the same results.
- The test for more than `ni` bytes read in `hufUnpackEncTable` (`tinyexr.h:2331`) never fails, because the test at the
  top of the loop has passed and one code length takes at most one byte; `HufPack.UnpackNext` asserts this.
- In the hash chains zero stands for no position, so a position that is a multiple of 65536 ends the chain although it
  may begin a match (`miniz.c:1413`), and so does everything before it. `TdeflParser.RepeatFound` therefore asks for a
  chain without such positions. A match whose distance equals the position modulo 32768, one that begins where the
  ring does, is dropped (`miniz.c:1801`).
- If an archive has several entries whose names differ only in case, the binary search may find another one than
  the scan (`miniz.c:4273-4385`); `ZipIndex.LocateBothWays` states how the two results relate.

## Left out

Contracts that say less than the code does:

- PizRoundTrip: blocks of 2^32 bytes or more, where the size no longer fits the `unsigned int` that reports it. An
  empty block counts as a failure, as `at(0)` throws.
- DecompressPiz: what comes out for input that is not a compressed block; a negative length counts as a failure.
- HufUncompress: what comes out for input that is not a Huffman stream. Reads behind the input yield zeros, and a table
  entry without list is one with an empty list.
- OutputBits: setting bits by `|` where all of them are zero is written as an addition, here and wherever else the
  code does so.
- RleCompress: inputs of 2^31 bytes or more, whose length does not fit the `int` that reports it.
- EncodeOffsets: what encoding a block yields is a parameter; a level that is missing or out of order, and the error
  texts, are not modelled.
- Save: the bytes of headers and attributes are a parameter; the size in memory is unbounded, except that offsets read
  back as eight bytes are below 2^64.
- WorkIsDone: the encoder of a block is a function of the block's number, and a step of one thread on its own block is
  atomic. How the standard library starts and joins threads is not modelled.
- CompressFast: what an eight-byte store writes behind the bytes that count, since the next store overwrites it.
- Compress: output always has room and is always accepted, so a failing output function and pending output do not
  occur. Positions are unbounded, so inputs from 2^32 bytes on, where they wrap around, are not modelled. The hash
  chains start out as zeros, which is also what the flag for nondeterministic parsing permits. Computing the checksum
  without writing a zlib header is not modelled.
- Decompress: all input is present, and the output buffer holds all output and does not wrap. Suspending and resuming,
  reading four bytes ahead, and the rule by which incomplete codes report that no progress is possible are left out. What
  comes out is stated for blocks whose tokens have the symbols of `LzSymbols`; a length of 258 as symbol 284 is decoded
  but not covered, and of other input only the refusals of `InflateStream.InflateBlock` are stated.
- LengthBack: the coder's table is given by the ranges of its entries, not entry by entry.
- DistanceBack: so are the coder's tables for distances.
- Adler: the null buffer, for which the initial value is returned.
- LocateBothWays: comments, the flags for case and for ignoring paths, and names of 2^31 bytes or more.
- CountIsOwners: memory orders, exceptions in constructors, the mutex of the device, reuse of addresses, and objects
  that reach each other in cycles. Destroying a buffer and releasing its device reference is one step.

Parts of the repository that are not modelled:

- `tdefl_compress_fast`, which is chosen for one probe and greedy parsing; the sizes of the low-memory build.
- Null, parameter and allocation checks; alignment; big-endian machines.
- The capacity of the PIZ output buffer, whose bound the source marks as open (`tinyexr.h:6537-6540`).
- Pixel conversion and the bytes of EXR headers, attributes, deep images, ZFP, and reading multi-part files.
- The PNG writer, and reading and writing archives other than the name index.
- The denoising filters, thread pools and vector code of the library, and the command line and file handling of the
  tool: floating point, foreign code, or plumbing.
