# Verified models of LodePNG, the WIM decompressors and the embedded web server

This project models four pieces of the repository and proves what they are for:

- **LodePNG's DEFLATE codec** (`src/lodepng.c`): bit writer and reader, canonical codes and the two-level
  decoding table, length-limited codes by boundary package-merge with its own pool of nodes, LZ77 with two
  hash chains and lazy matching, run-length coding of code lengths, and whole streams in both directions.
  The main result is `Deflater.RoundTrip`. It rests on `Inflater.Inflatev`, which shows that the
  decompressor is the reference decoder of RFC 1951 in `DeflateSpec`. The code lengths are the shortest
  possible (`CodeLengths.HuffmanCodeLengths`): no other trees write the tokens of a block with fewer bits
  (`ShortestBlock.TreesAreShortest`).
- **LodePNG's scanlines** (`src/lodepng.c`): filters, padding bits and Adam7 interlacing, with the decoder's
  work in one buffer. The main result is `Scanlines.ScanlineRoundTrip`. The 32-bit arithmetic on image
  dimensions is in `Words`, with the exact conditions under which it is right.
- **Checksums and the WIM decompressors** (`src/lodepng.c`, `wimldr/`): Adler-32 with deferred remainders,
  CRC-32 by slicing by eight, an independent Huffman decoder, and LZNT1 with its sizing pass.
- **The HTTP request parser** (`ews/EmbeddableWebServer.h`): a state machine driven by characters, with a
  bounded string pool and a step back that replays a character.

## How it is built

Streams of bits are sequences of `bool`; a code is a sequence of `bool` computed from the list of code
lengths. What changes in place in the source is a class or an array here: `BitIO.BitWriter`,
`BitIO.BitReader`, `HuffmanTrees.HuffmanTree`, `BpmLists.BPMLists`, `LZ77.Hash`, `RequestParser.Request`, and
methods on arrays for sorting, tables, scanlines and passes. Each of these is proved against a function or a
relation on values, and the lemmas about those carry the main results.

Where such a function is a format, other lemmas spell the format out in bits and bytes, without the functions
that the decoders are proved against: `DeflateText` and `DynamicText` for the three types of DEFLATE block,
`PngLines` for scanlines, `Lznt1Text` for LZNT1, `RequestText` for requests. The modules:

| part | modules |
|---|---|
| bits and numbers | `Bits`, `BitIO` |
| codes and tables | `Canonical`, `HuffTable`, `HuffmanTrees`, `FixedTrees`, `ReadAhead` |
| code lengths | `LeafSort`, `PackageMerge`, `PlainMerge`, `OptimalCode`, `BpmLists`, `CodeLengths` |
| reading streams | `DeflateSpec`, `TreeReader`, `Inflater`, `DeflateText`, `DynamicText` |
| writing streams | `DeflateTables`, `DeflateCode`, `TreeCode`, `RunLengths`, `TreeWriter`, `TokenWriter`, `ShortestBlock`, `Matches`, `LZ77`, `Deflater` |
| scanlines | `PixelBits`, `Filters`, `UnfilterLines`, `FilterLines`, `Adam7`, `Words`, `Interlace`, `Scanlines`, `PngLines` |
| checksums | `Adler`, `Crc` |
| WIM | `WimHuffman`, `Lznt1`, `Lznt1Text` |
| HTTP | `UrlDecode`, `RequestSpec`, `RequestParser`, `RequestText` |

## Where the code does less than it promises

Each of these has a lemma with a concrete input and the condition under which the code is right.

- The sizes of interlaced passes are products of `unsigned` numbers. They are right exactly if `Words.Fits`
  holds (`Words.StartsExact`); an image of 16384 * 16384 pixels of 32 or 64 bits does not
  (`Words.LargeImageLost`). LodePNG's own overflow check, of which it says that sizes then fit a `size_t`, is
  made by the decoder only and does not exclude it. The interlacer's offsets are 32-bit too
  (`Words.OffsetsExact`, `Words.LastBitsLost`).
- The decoder decides in 32 bits whether the rows of an image without interlacing have padding
  (`Words.RowsExact`, `Words.WideRowLost`).
- Frequencies are cast to `int`, and the weights of packages are added as `int`
  (`CodeLengths.CastLosesOrder`). `CodeLengths.FrequenciesFit` is a sufficient condition that a caller can check; the
  counts of a block satisfy it (`CodeLengths.CountsFit`).
- If the array has one symbol only, the second length that is written lies outside it (`CodeLengths.SecondInside`).
- The empty input has no stored block at all, and no decoder takes that for a stream
  (`Deflater.EmptyStoredFails`).
- A stored block of length 0 that ends with the data is refused, although RFC 1951 allows it; no other is
  (`Inflater.RefusedExactly`, `Inflater.EmptyStreamRefused`).
- After a Content-Length that is zero or negative the request is not complete before one more character, which
  is lost (`RequestText.ZeroLengthWaits`; the condition is in `RequestText.RestParses`).

## Model

| member | source | states |
|---|---|---|
| BitIO.BitWriter.WriteBit | src/lodepng.c:410-418 | one bit is appended after all bits written so far, and the bytes before the writer's start stay as they were |
| BitIO.BitWriter.WriteBits | src/lodepng.c:421-431 | the low bits of the value are appended least significant first; a single bit is taken unmasked, so it must be 0 or 1 |
| BitIO.BitWriter.WriteBitsReversed | src/lodepng.c:434-440 | the low bits of the value are appended most significant first |
| BitIO.BitReader.EnsureBits9 | src/lodepng.c:477-489 | at least 9 bits of look-ahead: the buffer holds the next 9 bits of the stream, zeros past its end, even for the last bytes of the data |
| BitIO.BitReader.EnsureBits17 | src/lodepng.c:492-506 | the same for 17 bits |
| BitIO.BitReader.EnsureBits25 | src/lodepng.c:509-524 | the same for 25 bits |
| BitIO.BitReader.EnsureBits32 | src/lodepng.c:527-544 | the same for 32 bits, although the fifth byte is shifted into a 32-bit buffer and loses its upper bits |
| BitIO.BitReader.PeekBits | src/lodepng.c:547-550 | the number of the next bits of the zero-extended stream, first bit least significant |
| BitIO.BitReader.AdvanceBits | src/lodepng.c:553-556 | the position moves on by exactly that many bits and the buffer still holds what follows |
| BitIO.BitReader.ReadBits | src/lodepng.c:559-563 | peeking and advancing together |
| HuffmanTrees.ReverseBits | src/lodepng.c:566-571 | the number whose least-significant-first bits are the most-significant-first bits of the code: how canonical codes become table indices |
| Canonical.PrefixFree | src/lodepng.c:770-804 | if the code space is not oversubscribed, at most one symbol's canonical code begins a bit string |
| Canonical.CompleteDecodes | src/lodepng.c:770-804 | if the code space is used up exactly, every string of maximal length begins with some symbol's code |
| Canonical.IncompleteMisses | src/lodepng.c:770-804 | if it is not used up, the string of ones begins with no code |
| Canonical.OversubscribedClashes | src/lodepng.c:770-804 | if it is oversubscribed, two symbols start with the same code of zeros at the shortest length |
| Canonical.UsedIsKraftSum | src/lodepng.c:770-804 | the running count of the code space is the Kraft sum scaled by a power of two |
| HuffTable.SlotsApart | src/lodepng.c:667-691 | the main table and the secondary tables of the two-level table never share an entry |
| HuffTable.HeadClash | src/lodepng.c:705-715 | an occupied entry of the main table means that two codes clash |
| HuffTable.FilledApart | src/lodepng.c:694-734 | in a table that was filled without error no code of at most 9 bits begins anything that another code begins |
| HuffTable.UnusedIsGap | src/lodepng.c:752-760 | an entry still unused at the end means that some bit string has no code |
| HuffTable.UsedIsNoGap | src/lodepng.c:752-760 | no entry unused means that every bit string has a code |
| HuffTable.TableAfterMarking | src/lodepng.c:736-751 | once unused entries are marked invalid, every 15-bit look-ahead leads to its symbol or to an invalid entry |
| HuffmanTrees.HuffmanTree.FillHeads | src/lodepng.c:683-691 | the heads of long codes point at consecutive secondary tables of the right sizes; everything else is unused |
| HuffmanTrees.HuffmanTree.FillShort | src/lodepng.c:705-715 | all entries of a short code are set, or a clash is reported, which is one |
| HuffmanTrees.HuffmanTree.FillLong | src/lodepng.c:716-733 | all entries of a long code's secondary table are set, without any check for collisions |
| HuffmanTrees.HuffmanTree.MakeTable | src/lodepng.c:649-763 | success yields a table that decodes every look-ahead; failure happens only for clashing codes or, with two symbols or more, for codes that leave a gap |
| HuffmanTrees.LongOnlyFits | src/lodepng.c:716-733 | why collisions of long codes need no check: 288 symbols longer than 9 bits, and none shorter, cannot oversubscribe 15 bits |
| HuffmanTrees.VerdictIsCompleteness | src/lodepng.c:649-804 | the verdict of the table is acceptance of exactly the complete codes, or codes of fewer than two symbols |
| HuffmanTrees.HuffmanTree.CanonicalCodes | src/lodepng.c:770-800 | the codes are those of section 3.2.2 of RFC 1951, although the count of absent symbols enters the first sum and is masked away, and the sums are 32-bit |
| HuffmanTrees.HuffmanTree.MakeFromLengths2 | src/lodepng.c:770-804 | no error if and only if the code is complete or has fewer than two symbols; otherwise error 55; the lengths are kept |
| HuffmanTrees.HuffmanTree.MakeFromLengths | src/lodepng.c:811-820 | the same for a copied array of lengths |
| HuffmanTrees.Lookup | src/lodepng.c:1058-1070 | every 15 bits lead through one or two lookups to an entry that names their symbol |
| HuffmanTrees.HuffmanTree.DecodeSymbol | src/lodepng.c:1058-1070 | returns the symbol whose canonical code comes next in the zero-extended stream and advances by exactly its length, or the invalid symbol if there is none |
| ReadAhead.SymbolRead | src/lodepng.c:1058-1070 | what the table returns is what one-code-at-a-time prefix decoding finds, once the end of the data is taken into account |
| LeafSort.MergeRuns | src/lodepng.c:889-893 | one merge of two neighbouring runs, stable, into the other buffer |
| LeafSort.MergePass | src/lodepng.c:886-894 | one pass of the bottom-up merge sort, with a last run that may be short |
| LeafSort.Sort | src/lodepng.c:879-899 | the leaves are a permutation of the old ones in order of weight and, for equal weights, of symbol, whichever buffer the last pass ended in |
| PackageMerge.StepOk | src/lodepng.c:902-925 | every step keeps what is known about each list: its two lookaheads are consecutive items, the chains are real, the weights grow |
| PackageMerge.PackageCounts | src/lodepng.c:902-925 | a package is the next item of its list, up to the list's capacity |
| PackageMerge.RunOk | src/lodepng.c:979-988 | that holds after any number of steps |
| PackageMerge.WidthConserved | src/lodepng.c:987-992 | a chain's shares of the code space and the items left always add up to the same total |
| PackageMerge.RunIsComplete | src/lodepng.c:979-992 | the final chain gives lengths from 1 to the limit, falling with the weight, whose Kraft sum is exactly one |
| PackageMerge.StepWeights | src/lodepng.c:902-925 | a step keeps the bound on the weights in the lists |
| PackageMerge.RunWeights | src/lodepng.c:979-988 | the bound holds in the whole run |
| PackageMerge.SumFits | src/lodepng.c:910-913 | so the sum of two lookaheads never leaves a 32-bit int |
| PlainMerge.FinalIsPlain | src/lodepng.c:902-992 | the boundary algorithm, which only keeps two lookaheads of every list, gives a symbol the number of times it occurs in the first 2n-2 items of the last list of plain package-merge |
| OptimalCode.LeastTotal | src/lodepng.c:902-992 | list by list, package-merge has the least weight for the share of the code space that it takes |
| OptimalCode.NoCodeIsCheaper | src/lodepng.c:902-992 | so its first 2n-2 items weigh no more than any code within the limit that fits |
| OptimalCode.BillIsSum | src/lodepng.c:902-992 | and they weigh what the lengths read from them cost |
| BpmLists.BPMLists.constructor | src/lodepng.c:966-985 | the node pool at the start: two leaves at the head of every list |
| BpmLists.LiveBound | src/lodepng.c:966-973 | the chains of one side use at most half of k(k+1) cells |
| BpmLists.BPMLists.ReachBound | src/lodepng.c:854-869 | no more than half of the pool is ever live |
| BpmLists.BPMLists.MarkAll | src/lodepng.c:856-862 | exactly the nodes reachable from the chains are marked |
| BpmLists.BPMLists.Collect | src/lodepng.c:854-869 | the collector keeps every chain, frees everything else and leaves at least half of the pool free |
| BpmLists.BPMLists.Create | src/lodepng.c:850-876 | a new node is never one that a chain reaches, and every chain still spells what it did, also when a collection runs in between |
| BpmLists.BPMLists.PushHead | src/lodepng.c:905-917 | the lookaheads move up by one in the pool exactly as in the lists they stand for |
| BpmLists.BPMLists.BoundaryPM | src/lodepng.c:902-925 | the recursion on the pool is the step on lists, and the pool stays valid |
| CodeLengths.CollectLeaves | src/lodepng.c:940-946 | the leaves are the symbols that occur, each once, in order, with their frequencies as weights |
| CodeLengths.PlacedIsCode | src/lodepng.c:987-992 | lengths added up along the final chain form a complete code for the frequencies |
| CodeLengths.RunLists | src/lodepng.c:987-988 | running the lists for 2n-2 items leaves the final chain on top of the last one |
| CodeLengths.PackageMergeIsOptimal | src/lodepng.c:979-992 | lengths that count the occurrences of symbols in the items make no text longer than another code would |
| CodeLengths.HuffmanCodeLengths | src/lodepng.c:927-1003 | error 80 exactly if the codes cannot fit; else the lengths that plain package-merge gives: a complete code within the limit for the symbols that occur, absent symbols without one if two occur, and no code of the same limit makes a text of these frequencies shorter |
| CodeLengths.CastLosesOrder | src/lodepng.c:940-946 | frequencies 2^31, 1, 1: the cast to int makes the most frequent symbol the lightest leaf, and it gets a longer code than a symbol of frequency 1 |
| CodeLengths.CountsFit | src/lodepng.c:1855-1872 | frequencies up to 2^18 + 1 of up to 288 symbols pass the bound |
| CodeLengths.SecondInside | src/lodepng.c:950-959 | the second symbol that gets a code when fewer than two occur lies inside the array unless the array has one entry, and then outside |
| TreeWriter.MakeFromFrequencies | src/lodepng.c:1006-1018 | only symbols of frequency 0 are trimmed, down to the minimum; the lengths are the cheapest ones, and the tree is ready to write and read |
| FixedTrees.GenerateFixedLitLenTree | src/lodepng.c:1022-1037 | the fixed literal and length tree is accepted and has the lengths of section 3.2.6 of RFC 1951 |
| FixedTrees.GenerateFixedDistanceTree | src/lodepng.c:1040-1051 | the same for the fixed distance tree |
| DeflateText.FixedCodesAre | src/lodepng.c:1022-1037 | the fixed codes are the bits in the table of section 3.2.6 of RFC 1951, from 00110000 for symbol 0 |
| DeflateText.FixedDistanceCodesAre | src/lodepng.c:1040-1051 | the fixed distance codes are numbers of five bits |
| DeflateText.TablesAre | src/lodepng.c:586-609 | bases, extra bits and the order of the code lengths, as numbers |
| TreeReader.ReadClLengths | src/lodepng.c:1118-1128 | the lengths of the code length code, in the order of section 3.2.7, with zeros for those not sent |
| TreeReader.ReadRuns | src/lodepng.c:1142-1201 | the two arrays together hold what the reference reader of runs finds, also for a run across their border; an error means that it finds none |
| TreeReader.MakeTwoTrees | src/lodepng.c:1204-1209 | both trees are accepted if and only if both codes are, and the end code has a length |
| TreeReader.GetTreeInflateDynamic | src/lodepng.c:1089-1220 | succeeds if and only if the reference decoder reads two trees from the header; then they are those, and the position is where it stopped |
| DeflateSpec.RepeatsCopy | src/lodepng.c:1289-1304 | copying from a distance back reproduces data that repeats at that distance, also when copy and source overlap |
| Inflater.CopyBack | src/lodepng.c:1294-1304 | the copy in blocks, for overlapping and non-overlapping pairs, is the copy of one byte after the other |
| Inflater.ReadPair | src/lodepng.c:1259-1287 | length and distance with their extra bits as the reference decoder reads them; an error means that it fails |
| Inflater.DecodeSymbols | src/lodepng.c:1240-1323 | the loop, which reads two literals at a time, yields the bytes of the reference decoder and fails only if it does, or at the size limit |
| Inflater.InflateHuffmanBlock | src/lodepng.c:1223-1329 | a whole block with its trees |
| Inflater.InflateNoCompression | src/lodepng.c:1331-1364 | a stored block, with the lengths checked unless told not to; errors 52, 21 and 23 each exactly in its case |
| Inflater.RefusedExactly | src/lodepng.c:1337-1348 | of the stored blocks that section 3.2.4 of RFC 1951 allows, exactly those without bytes at the end of the data are refused |
| Inflater.EmptyStreamRefused | src/lodepng.c:1337-1348 | such a stream of five bytes does not inflate |
| Inflater.Inflatev | src/lodepng.c:1366-1390 | succeeds if and only if the reference decoder of RFC 1951 does and the output is within the limit; then the output is that decoder's. Error 109 is the error for output that is too large, and 52 that for no data |
| DeflateText.FixedTextInflates | src/lodepng.c:1223-1329 | a fixed block spelled out in bits, literals and pairs, inflates to what it means, whatever follows |
| DeflateText.FixedExample | src/lodepng.c:1366-1390 | the bytes 4B 04 00 inflate to the letter a |
| DeflateText.BlockHeaderIs | src/lodepng.c:1366-1390 | a block starts with the mark of the last one and its type, least significant bit first; blocks are read until the last |
| DeflateText.StoredTextInflates | src/lodepng.c:1331-1364 | a stored block spelled out in bytes, length and complement low byte first, inflates to its data |
| DynamicText.DynamicTextInflates | src/lodepng.c:1089-1220 | a dynamic block spelled out in bits, with its three counts, the code length code and the runs of both lists of lengths, inflates to what its items mean |
| DeflateText.ReservedFails | src/lodepng.c:1366-1390 | block type 3 is refused |
| DeflateText.UnusedLengthFails | src/lodepng.c:1259-1287 | length codes 286 and 287 are refused |
| DeflateText.UnusedDistanceFails | src/lodepng.c:1259-1287 | distance codes 30 and 31 are refused |
| DeflateCode.SymbolInverts | src/lodepng.c:1058-1070 | prefix decoding returns the symbol whose code was written, and the rest of the stream |
| DeflateCode.PairInverts | src/lodepng.c:1259-1287 | a written length and distance with their extra bits are read back |
| DeflateCode.TokenInverts | src/lodepng.c:1252-1309 | decoding a written token goes on after it as if the token had been applied to the output |
| DeflateCode.BlockInverts | src/lodepng.c:1223-1329 | decoding the written tokens of a block and its end code yields their expansion and the rest of the stream |
| DeflateCode.LengthCodeUnique | src/lodepng.c:1431-1467 | one length belongs to one length code, with 258 at code 28 only |
| DeflateCode.DistanceCodeUnique | src/lodepng.c:1431-1467 | the same for distances |
| DeflateTables.LengthTable | src/lodepng.c:586-589 | the table of length bases is the closed form the proofs use |
| DeflateTables.DistanceTable | src/lodepng.c:596-599 | the same for distance bases |
| DeflateTables.OrderTable | src/lodepng.c:606-609 | the table of the code length order is a permutation's closed form |
| DeflateTables.SearchCodeIndex | src/lodepng.c:1431-1443 | the binary search finds the last base not above the value |
| DeflateTables.AddLengthDistance | src/lodepng.c:1445-1467 | appends the four values that stand for a pair |
| LZ77.Hash.constructor | src/lodepng.c:1486-1509 | the empty hash chains are fit for every text |
| LZ77.GetHash | src/lodepng.c:1523-1540 | the hash mixes the next three bytes, shifted by 0, 4 and 8 bits, or at the end of the block the bytes that are left, into 16 bits |
| LZ77.CountZeros | src/lodepng.c:1542-1550 | the run of zeros at a position, capped at 258 |
| LZ77.Hash.UpdateHashChain | src/lodepng.c:1553-1561 | entering a position links it to the last one with the same hash, and to the last one with the same number of zeros; both chains keep leading through exactly the earlier positions of their kind inside the window |
| LZ77.ZerosRepeat | src/lodepng.c:1635-1641 | bytes skipped in the comparison because of the recorded zeros do match |
| LZ77.Extend | src/lodepng.c:1631-1647 | the match found at a candidate is real and cannot be extended |
| LZ77.FindMatch | src/lodepng.c:1614-1668 | a match that cannot be extended, at a distance inside the window, or none; and among the candidates that the chain reaches the longest one, the nearest of those, unless a good enough one ended the search |
| LZ77.Settle | src/lodepng.c:1677-1690 | the two ends of a pending lazy match: go back one position to it, or, only if the match here is longer by two, write its first byte and go on with that one |
| LZ77.WindowMask | src/lodepng.c:1594-1600 | for the window sizes accepted the mask is the remainder |
| LZ77.EncodeLZ77 | src/lodepng.c:1572-1719 | errors 60 and 90 exactly for the wrong window sizes, and never 81 or 86; the tokens expand after the history to the input, each pair with a length of 3 to 258 and a distance below the window size; every token follows from the best candidates at its position by the rules for nice, lazy, short and far matches; the loop ends although it steps back |
| Matches.LongestMatch | src/lodepng.c:1606-1669 | with the longest chains no match inside the window is longer than the one found, and no nearer one as long, unless a good enough one ended the search; runs of zeros excepted |
| Deflater.DeflateNoCompression | src/lodepng.c:1723-1754 | the input in stored blocks of up to 65535 bytes, the last one marked |
| TreeCode.OrderIsPermutation | src/lodepng.c:606-609 | each of the 19 lengths has one place in the header |
| TreeCode.RunInverts | src/lodepng.c:1142-1201 | one run or single length of the coded lengths is read back |
| TreeCode.RunsInvert | src/lodepng.c:1142-1201 | all of them are, up to the number of lengths announced |
| TreeCode.RunsShort | src/lodepng.c:1879-1921 | the coded lengths take no more values than there are lengths |
| TreeCode.HeaderInverts | src/lodepng.c:1089-1220 | from a written header of a dynamic block both lists of lengths are read back, padded with zeros |
| TreeWriter.EncodeLengths | src/lodepng.c:1887-1921 | the runs found expand to the lengths, never take more room, and are the ones that a reader of the lengths from left to right would choose |
| RunLengths.RunsArePacked | src/lodepng.c:1887-1921 | no three zeros and no four other equal lengths in a row are written one by one |
| TreeWriter.TrimClLengths | src/lodepng.c:1935-1940 | only zero lengths are cut from the end of the order, as many as there are, and at least four stay |
| TreeWriter.WriteHeader | src/lodepng.c:1961-1981 | the bits written are the header of the two trees |
| TreeWriter.RunCountBound | src/lodepng.c:1923-1929 | no run symbol occurs more often than there are values |
| TokenWriter.CountSymbols | src/lodepng.c:1855-1865 | the frequencies count every token's length code and distance code and the end code once, stepping over the extra bits |
| TokenWriter.TokensHaveCodes | src/lodepng.c:1867-1872 | trees made from those frequencies have a code for everything that is written |
| TokenWriter.WriteLZ77Data | src/lodepng.c:1761-1783 | the bits written are those of the tokens |
| ShortestBlock.BlockSizeIs | src/lodepng.c:1761-1783 | the bits of a block are the cost of its symbols and the extra bits |
| ShortestBlock.TreesAreShortest | src/lodepng.c:1855-1872 | no other trees within 15 bits write the tokens of a block with fewer bits |
| ShortestBlock.HeaderIsShortest | src/lodepng.c:1923-1940 | no other code within 7 bits writes the lengths of the trees with fewer bits |
| Deflater.MakeTokens | src/lodepng.c:1846-1853 | with LZ77 or without, the values are those of tokens that expand to the block, and the tokens are the matcher's |
| Deflater.DynamicDecodes | src/lodepng.c:1786-2006 | a dynamic block decodes to its data whatever follows it, and says whether it is the last |
| Deflater.FixedDecodes | src/lodepng.c:2008-2051 | so does a fixed block |
| Deflater.DeflateDynamic | src/lodepng.c:1786-2006 | the bits appended are such a block with the matcher's tokens and the cheapest trees; the only error is a wrong window size |
| Deflater.DeflateFixed | src/lodepng.c:2008-2051 | the same with the fixed trees |
| Deflater.StoredRoundTrip | src/lodepng.c:1331-1364 | stored blocks inflate to the input |
| Deflater.BlockSize | src/lodepng.c:2064-2070 | dynamic blocks have at most 2^18 bytes; the size is 0 only for an empty input with the fixed trees |
| Deflater.BlockSizes | src/lodepng.c:2064-2070 | one fixed block; dynamic blocks of 65536 bytes for small inputs and 262144 for large ones, and an eighth of the input, plus 8, between |
| Deflater.Deflatev | src/lodepng.c:2053-2092 | error exactly for unusable settings; else the bytes appended are blocks of the size and type asked for, with the matcher's tokens and the cheapest trees, and over all blocks they inflate to exactly the input |
| Deflater.RoundTrip | src/lodepng.c:2053-2092 | the decompressor applied to the compressor's output returns no error and the input, for every block type, window and match setting |
| Deflater.EmptyStoredFails | src/lodepng.c:1723-1754 | for the empty input the stored form has no block at all, and that does not inflate |
| Adler.UpdateAdler32 | src/lodepng.c:2122-2140 | the deferred remainders give the sums of section 9 of RFC 1950 for data of any length, within 32 bits |
| Adler.RunIsLongest | src/lodepng.c:2128-2134 | 5552 bytes is the longest run whose sums cannot leave 32 bits |
| Adler.UpdateChains | src/lodepng.c:2122-2146 | the checksum of a concatenation is the second part's update of the first part's |
| Adler.ChecksumIs | src/lodepng.c:2142-2145 | the checksum is the sum of the bytes and their sum weighted from the end, modulo 65521 |
| Adler.BaseIsLargestPrime | src/lodepng.c:2135-2136 | which is the largest prime below 2^16 |
| Crc.ByteStepXor | src/lodepng.c:2643-2662 | eight steps of the register are linear over xor |
| Crc.NextTable | src/lodepng.c:2362-2641 | each table is the one before it moved on by a zero byte |
| Crc.Slice | src/lodepng.c:2647-2657 | eight table lookups do eight single-byte updates |
| Crc.LodepngCrc32 | src/lodepng.c:2643-2662 | slicing by eight gives the CRC of the PNG Specification, annex D, for every length |
| Crc.PolynomialIs | src/lodepng.c:2362-2400 | the polynomial, by its exponents, and the shift, bit by bit |
| Crc.CheckValue | src/lodepng.c:2643-2662 | the checksum of the digits 1 to 9 is CBF43926 |
| PixelBits.ReadBitFromReversedStream | src/lodepng.c:2693-2697 | the bit at a position, most significant first |
| PixelBits.ByteOfBits | src/lodepng.c:2693-2697 | a byte is the number whose binary digits are its bits, the first worth 128 |
| PixelBits.SetBitOfReversedStream | src/lodepng.c:2710-2715 | sets that bit and leaves every other bit |
| PixelBits.RemovePaddingBits | src/lodepng.c:4710-4732 | every row keeps its bits and loses its padding, also in one buffer, and nothing else changes |
| PixelBits.AddPaddingBits | src/lodepng.c:6294-6311 | every row keeps its bits and is followed by zeros to its new width |
| UnfilterLines.PaethPredictor | src/lodepng.c:4308-4318 | the source's shortened comparisons choose the predictor of the PNG Specification |
| Filters.PaethIsNearest | src/lodepng.c:4308-4318 | the predictor is the neighbour nearest to left + above - upper left; ties go to left, then above |
| Filters.PredictIs | src/lodepng.c:4438-4627 | no prediction, the byte to the left, the byte above, their average rounded down, and the Paeth predictor |
| Filters.FilteredByte | src/lodepng.c:4438-4627 | what each filter type says of one byte, with zeros left of the line and above the first |
| UnfilterLines.UnfilterAverage | src/lodepng.c:4467-4507 | all the unrolled loops of the average filter undo it |
| UnfilterLines.UnfilterPaeth | src/lodepng.c:4508-4623 | all the unrolled loops of the Paeth filter undo it |
| UnfilterLines.UnfilterScanline | src/lodepng.c:4438-4627 | every filter is undone in place, for each byte width and line length, with or without a line above; only a type above 4 is an error, and nothing is written then |
| Filters.UnfilterInverts | src/lodepng.c:4438-4627 | a line whose filter is undone is the line that was filtered |
| Filters.ImageInverts | src/lodepng.c:4629-4657 | so is a whole image, row by row |
| FilterLines.FilterScanline | src/lodepng.c:6044-6086 | each byte is the difference to its prediction, and nothing outside the line changes |
| FilterLines.Unfilter | src/lodepng.c:4629-4657 | in its own buffer too, the result undoes the filters of what was there before; an error means a filter type above 4 |
| FilterLines.Filter | src/lodepng.c:6109-6290 | each row is preceded by the filter type asked for and filtered against the row above it |
| FilterLines.FilterRoundTrip | src/lodepng.c:6109-6290 | unfiltering the filtered image returns it, for every choice of types |
| Adam7.PassTables | src/lodepng.c:4322-4325 | the tables of starts and steps |
| Adam7.PassPattern | src/lodepng.c:4322-4325 | the pass of a pixel is that in the 8 by 8 pattern of section 8.2 of the PNG specification |
| Adam7.PassCovers | src/lodepng.c:4342-4365 | every pixel lies in a pass, at a place within its dimensions |
| Adam7.PassPlaces | src/lodepng.c:4342-4365 | every place of a pass is a pixel of the image that lies in this pass only |
| Adam7.AreasAddUp | src/lodepng.c:4342-4365 | the areas of the passes add up to that of the image |
| Adam7.SizesOrdered | src/lodepng.c:4342-4365 | packed, padded and filtered sizes of a pass are ordered |
| Adam7.StartsOrdered | src/lodepng.c:4342-4365 | so are the places where it begins, which is why one buffer is enough |
| Adam7.ExpectedSizeIsFilterStart | src/lodepng.c:5474-5482 | the decoder's seven terms add up to the end of the last filtered pass |
| Words.SizesExact | src/lodepng.c:4342-4365 | the 32-bit sizes of a pass are right if and only if neither its bits nor its filtered bytes wrap |
| Words.StartsExact | src/lodepng.c:4342-4365 | all the 32-bit starts are right if and only if that holds for every pass and no width or height wraps |
| Words.LargeImageLost | src/lodepng.c:4342-4365 | 16384 * 16384 pixels of 32 bits, or of 64: a pass wraps to size 0 |
| Words.FirstPassLost | src/lodepng.c:4347-4353 | a width or height in the last seven of 32 bits loses the first pass |
| Words.ExpectedSizeExact | src/lodepng.c:5474-5482 | where the decoder's 64-bit size and the end of the 32-bit passes agree, exactly |
| Words.OffsetsExact | src/lodepng.c:6324-6361 | the interlacer's 32-bit pixel and bit offsets are right if and only if that of the last pixel is |
| Words.LastBitsLost | src/lodepng.c:6324-6361 | an image of 32768 * 32770 pixels of 4 bits whose passes fit and whose offsets do not |
| Words.RowsExact | src/lodepng.c:4749-4755 | the decoder takes padding out of the rows where there is any, and by the right widths, if and only if the 32-bit width of a row fits or the row fills whole bytes |
| Words.WideRowLost | src/lodepng.c:4749-4755 | a row of 2^30 + 1 pixels of 4 bits shrinks to 4 bits |
| Interlace.GetPassValues | src/lodepng.c:4342-4365 | the numbers that the 32-bit arithmetic gives for every image, fitting or not |
| Interlace.PixelOfInjective | src/lodepng.c:6324-6361 | no two places of the passes are the same bit of the image |
| Interlace.InterlacedBit | src/lodepng.c:4670-4708 | where the bits of a pixel stand in the image and in its pass, in plain arithmetic |
| Interlace.Adam7Interlace | src/lodepng.c:6324-6361 | each pixel lands at its place in its pass |
| Interlace.Adam7Deinterlace | src/lodepng.c:4670-4708 | each pixel comes from there |
| Interlace.InterlacedInverts | src/lodepng.c:4670-4708 | an image deinterlaced from the passes of another has its pixels |
| Scanlines.PostProcessPlain | src/lodepng.c:4749-4755 | what the decoder makes of filtered rows, in the branch with padding and in that without |
| Scanlines.PreProcessPlain | src/lodepng.c:6375-6395 | the filtered rows represent the image |
| Scanlines.PostProcessPass | src/lodepng.c:4762-4772 | a pass is unfiltered and packed in the one buffer without touching the filtered passes that follow |
| Scanlines.PostProcessAdam7 | src/lodepng.c:4757-4774 | the image that the seven filtered passes represent, or error 36 for one with an invalid filter type |
| Scanlines.PreProcessAdam7 | src/lodepng.c:6396-6433 | the seven filtered passes represent the image |
| Scanlines.PlainUnique | src/lodepng.c:4737-4778 | filtered rows represent one image only |
| Scanlines.Adam7Unique | src/lodepng.c:4737-4778 | so do filtered passes |
| Scanlines.PreProcessScanlines | src/lodepng.c:6365-6436 | the stream represents the image, interlaced or not, and its rows begin with the filter types asked for |
| Scanlines.PostProcessScanlines | src/lodepng.c:4737-4778 | error 31 exactly without bits; else the image that the stream represents, or error 36 with an invalid filter type |
| PngLines.PlainLines | src/lodepng.c:4737-4778 | what represents an image without interlacing, byte by byte: rows of whole bytes, each after its filter type and predicted from its neighbours, whose bits are those of the image |
| PngLines.InterlacedLines | src/lodepng.c:4737-4778 | the same for the seven passes, with every pixel at its place in the pass that the pattern gives it |
| PngLines.PassStartsAre | src/lodepng.c:4342-4365 | the filtered passes stand one behind the other |
| Scanlines.ScanlineRoundTrip | src/lodepng.c:4737-4778 | decoding the encoded scanlines gives back every bit of the image, interlaced or not, for every choice of filter types |
| WimHuffman.CountLengths | wimldr/huffman.c:115-131 | the frequency of every length, and whether there is a symbol at all |
| WimHuffman.Populate | wimldr/huffman.c:133-152 | stops exactly if a length has too many symbols; complete exactly if the code space is used up |
| WimHuffman.FillRaw | wimldr/huffman.c:154-161 | symbols are placed by length and then by value |
| WimHuffman.Adjust | wimldr/huffman.c:163-180 | the raw pointers are offset for direct indexing, and each prefix looks up the last length whose codes begin no later |
| WimHuffman.HuffmanAlphabet | wimldr/huffman.c:100-189 | 0 if and only if the code is complete or there is no symbol; for a nonempty alphabet the tables are then the right ones, and for an empty one those of two codes of one bit |
| WimHuffman.FallsOnSymbol | wimldr/huffman.h:86-103 | the range that a value falls in belongs to the symbol whose code begins it |
| WimHuffman.HuffmanSym | wimldr/huffman.c:198-209 | the downward scan stops at the length whose range holds the value |
| WimHuffman.Decode | wimldr/huffman.h:86-103 | the raw symbol and its length: the one whose canonical code begins the 16 bits |
| WimHuffman.SameSymbol | wimldr/huffman.c:198-209 | for lengths up to 15 it is the symbol that LodePNG's decoder finds |
| Lznt1.SplitIsLeast | wimldr/lznt1.c:96-100 | the split leaves the least number of bits for the distance that covers the output so far, and at least four |
| Lznt1.SplitInRange | wimldr/lznt1.c:96-100 | the split is defined up to 65536 bytes of output |
| Lznt1.Expressible | wimldr/lznt1.h:39-43 | every distance within the output and every length that the split allows has a tuple |
| Lznt1.UpdateSplit | wimldr/lznt1.c:96-100 | updating split and threshold step by step keeps them the ones for the output so far |
| Lznt1.Block | wimldr/lznt1.c:43-108 | a block yields the length, or the error, that its tokens define, with a buffer or without; with one, it holds their expansion |
| Lznt1.Decompress | wimldr/lznt1.c:118-181 | the same over all blocks |
| Lznt1.MeasureAndDecompress | wimldr/lznt1.c:118-181 | measuring and decompressing agree on length and error; the length is that of the output, and a buffer of that length ends up holding it |
| Lznt1Text.WrittenReads | wimldr/lznt1.h:36-43 | chunks spelled out in bytes, stored and compressed, with tags and tuples, are read back |
| Lznt1Text.BrokenOff | wimldr/lznt1.c:130-170 | a stream that ends inside a header or a stored chunk is refused; a zero byte ends it |
| Lznt1Text.DecompressWritten | wimldr/lznt1.c:118-181 | decompressing what was spelled out gives its size and its contents |
| UrlDecode.ScanFits | ews/EmbeddableWebServer.h:645-717 | a text shorter than the buffer is always decoded |
| UrlDecode.ScanDecodes | ews/EmbeddableWebServer.h:645-717 | the character-driven states decode escapes three characters at a time |
| UrlDecode.ScanFills | ews/EmbeddableWebServer.h:645-717 | where there is not enough room the buffer is filled with what comes first |
| UrlDecode.CutEscape | ews/EmbeddableWebServer.h:645-717 | an escape cut off by the end of the text adds nothing |
| UrlDecode.ParameterEnds | ews/EmbeddableWebServer.h:645-717 | a parameter ends before the first &, even inside an escape |
| UrlDecode.WrittenDecodes | ews/EmbeddableWebServer.h:645-717 | decoding undoes escaping: each escape becomes its character, a plus sign a blank, and everything else stays |
| UrlDecode.URLDecode | ews/EmbeddableWebServer.h:645-717 | the buffer holds the decoded text and a NUL, and is otherwise unchanged; failure exactly when it is too small |
| RequestSpec.FragmentsDoNotMatter | ews/EmbeddableWebServer.h:1309-1455 | however the request is cut into fragments, the resulting state is the same |
| RequestSpec.PathDecodes | ews/EmbeddableWebServer.h:1323-1328 | decoding the path always succeeds, so the assertion about it holds |
| RequestSpec.SwitchKeeps | ews/EmbeddableWebServer.h:1309-1455 | every case keeps the invariant: NUL-terminated fields, strings within the pool, room for a header while one is read |
| RequestSpec.FeedKeeps | ews/EmbeddableWebServer.h:1390-1399 | so does a character with its replay |
| RequestSpec.RunKeeps | ews/EmbeddableWebServer.h:1309-1455 | so does any request |
| RequestParser.Request.constructor | ews/EmbeddableWebServer.h:183-221 | an empty request satisfies the invariant |
| RequestParser.Request.StartNewString | ews/EmbeddableWebServer.h:918-938 | a string begins behind the separator in the pool, or the pool is reported as used up |
| RequestParser.Request.AppendTo | ews/EmbeddableWebServer.h:940-948 | one character goes into the pool if there is room, and to no other place |
| RequestParser.Request.HeaderNameOrEat | ews/EmbeddableWebServer.h:1297-1306 | the state after a line that is not the last |
| RequestParser.Request.RequestParse | ews/EmbeddableWebServer.h:1309-1455 | the loop over a fragment, with the step back that replays a character, is the run of the state machine, body and its announced length included, and keeps the invariant |
| RequestParser.Request.HeaderInRequest | ews/EmbeddableWebServer.h:467-475 | the first header of that name, if there is one |
| RequestText.FindsFirst | ews/EmbeddableWebServer.h:467-475 | which is the first whose name is the same but for case |
| RequestText.ContentLengthIs | ews/EmbeddableWebServer.h:1401-1424 | the length of the body is the number in the first header called Content-Length |
| RequestText.RequestParses | ews/EmbeddableWebServer.h:1309-1455 | from a request of well-formed lines the parser stores exactly its method, path, decoded path, version and first 64 headers, each cut to its room; the first header called Content-Length, whatever its case, says how much of what follows is the body, and without one the request ends |
| RequestText.HeadersParse | ews/EmbeddableWebServer.h:1346-1400 | up to 64 headers that fit the pool are stored in order, each name and value at a place of its own |
| RequestText.AllHeadersParse | ews/EmbeddableWebServer.h:1297-1400 | of more than 64 headers the rest is eaten, and a flag says so |
| RequestText.BodyParses | ews/EmbeddableWebServer.h:1438-1447 | a body no longer than announced is stored whole, and ends the request when it is complete |
| RequestText.RestParses | ews/EmbeddableWebServer.h:1401-1455 | what a number above the limit, in range, zero or negative means for the body, and whether it was cut |
| RequestText.ZeroLengthWaits | ews/EmbeddableWebServer.h:1401-1447 | a POST with a body of length 0 waits for one more character, and loses it |
| RequestText.AfterEnd | ews/EmbeddableWebServer.h:1448-1455 | nothing is stored after the end; behind a body it is worth a warning |

## Left out

- Inflater.Inflatev: says exactly when it fails, and that the error is then one of a known set: 109 if the data are right and only the output is too large, 52 for no data; for other data the error depends on the literals that are read ahead.
- TreeReader.GetTreeInflateDynamic: on failure only the set of possible error codes is stated.
- TreeReader.ReadRuns: on failure only the set of possible error codes is stated.
- Deflater.Deflatev: with the fixed trees the empty input is excluded, since the source divides by a block size of 0; with stored blocks it appends nothing.
- Deflater.RoundTrip: excludes the empty input for stored and fixed blocks, for the reasons above.
- LZ77.FindMatch: at positions with three zeros or more the search may pass over candidates once it has found more than the zeros, and which ones it passes over is not stated.
- CodeLengths.HuffmanCodeLengths: the bound on the frequencies is sufficient and not exact; arrays of exactly one symbol are excluded, where the source writes outside them; the shift by the limit is taken to be in range.
- FilterLines.Filter: the filter types are a parameter; the strategies that choose them (minimum sum, entropy, brute force) are not modelled.
- Scanlines.PreProcessScanlines: the same; and interlaced images must satisfy the conditions of `Words`.
- Scanlines.PostProcessPlain: excludes rows whose bits wrap in 32 bits, also those of 2^32 - 7 to 2^32 - 1 bits, where the wrong width is used for a single row without harm.
- Scanlines.PostProcessScanlines: for images whose 32-bit sizes are right (`Words.Fits`, `Words.RowsFit`); for others the source reads and writes at wrong places of its buffers.
- Scanlines.PreProcessAdam7: for images that satisfy `Words.Fits` and `Words.OffsetsFit`.
- Interlace.Adam7Interlace: the same two conditions.
- Interlace.Adam7Deinterlace: for images that satisfy `Words.Fits`.
- Scanlines.PostProcessAdam7: the same.
- Scanlines.ScanlineRoundTrip: for images that satisfy the conditions of `Words` for their way of interlacing; nothing is claimed about the buffers of others.
- WimHuffman.HuffmanAlphabet: for an alphabet without symbols the raw symbols are left unset, as in the source, whose raw pointer then lies two places before the table; fewer than 65536 symbols, so that the 16-bit frequencies do not wrap.
- Lznt1.Block: excludes compressed values after more than 65536 bytes of output in a block, where the source shifts by a negative number.
- Lznt1.Decompress: excludes the same, compressed blocks that end beyond the data, and copies from before the block, for which the source reads outside its buffers.
- RequestSpec.SwitchKeeps: bounds the strings in the pool but does not say that they are disjoint, since the slot of an incomplete header line is used again; for well-formed requests `RequestText.HeadersParse` says where each string is.
- RequestText.RequestParses: for headers whose names and values are not empty and whose first 64 fit the string pool; the pool running out is covered by `RequestSpec.SwitchKeeps` only.
- UrlDecode.URLDecode: what two hexadecimal digits stand for is a parameter, since it is read by `sscanf`.
- What `sscanf` reads from the text of a Content-Length header is a parameter too (`RequestSpec.Library`); memory for the body is always found.
- Failing allocations, the growth of vectors and the space they reserve: vectors are sequences, and `size_t` has no bound.
- `lodepng_pixel_overflow` and the other checks of the decoder's front end, the zlib wrapper, and custom compressors and decompressors.
- The numbers in the eight CRC tables: they are functions of their index, related as the tables are.
- PNG chunks, text, colour conversion and statistics: long code with shallow properties.
- Sockets, threads, responses, files and MIME types of the web server; the user interface, EFI and disk code of the rest of the repository.
