# Verified model of bzip2, tree hashing, segment allocation and text codecs

A Dafny model of four parts of the repository, with proofs that they do what
they are for. `dafny verify dfyconfig.toml` checks all of it.

**The bzip2 codec** (`bzip2/`). Both directions are modelled step by step, with
the arrays and fields that the C code updates in place, and each stage is
proved against a specification on sequences:

- *Block sorting.* `Rotation` says what a sorted order of rotations is, ties in
  any order. `HeaderBits`, `FallbackQSort` and `FallbackSort` are the
  prefix-doubling sorter with its bucket bits and its explicit-stack quicksort.
- *Symbols.* `GenerateMtf` writes move-to-front symbols over the pointers they
  are made from; `Mtf` and `SymbolStage` read them back; `MtfCache` is the
  sixteen-window list in a 4096-byte array.
- *Codes.* `HuffmanTree`, `HuffmanHeap` and `HuffmanLengths` are the packed
  heap Huffman construction with its length limit, `HuffmanOptimal` the proof
  that no prefix code is shorter; `Canonical` the codes and decoding tables;
  `SendMtf`, `BlockWriter` and `SendBlock` the choice of tables and their
  transmission.
- *Decoding.* `Decoder` is the resumable decoder as a machine on states;
  `BlockDecoding`, `TableDecoding` and `DataDecoding` prove that it recovers
  each section of a block; `SymbolReader` and `Decompressor` are the code that
  runs it, with its bit buffer and saved locals.
- *Inverse transform and output.* `InverseBwt`, `InverseSetup` and `UnRle`
  cover both the fast path and the memory-saving one with 20-bit links and
  pointer reversal in place.
- *Whole streams.* `Stream.StreamRoundTrip` composes the stages.
  `Compressor.Encoder` is the compressor's stream state: when a call answers
  that the stream has ended, all it has handed out decompresses to all it took
  in, and a finishing call with room always gets further. `OutputBound` limits
  the length of blocks and streams, so that enough room ends every stream.
  `Progress` and `Decompressor` follow a decompression in pieces: whatever input
  comes later, nothing is lost and nothing is added at a suspension.
- *The format in numbers.* What writer and reader share is stated without either:
  `StreamFormat` gives head, marks, fields and widths of a stream as numbers, and
  which streams are refused at their beginning; `SectionFormat` the sections of a
  block, bit by bit; `Checksums` which stored checksums are accepted; `Crc` the
  bits of a checksum for any table.

**Tree hashing** (`client/MerkleTree.h`, `client/MerkleCheckOutputStream.h`, and
the tree download in `client/QueueManager.cpp` and `client/DownloadManager.cpp`).
`Thex` is the recursive tree hash of the THEX draft, section 2. `MerkleTree` is
the incremental hasher, `CheckStream` the checked output stream, whose two
operations are each characterised by an if-and-only-if, and `TreeDownload` the
way a tree travels as a list of leaves. The hash function is a free
constructor, so that equal hashes mean equal content.

**Segment allocation** (`client/QueueItem.cpp`, `client/QueueManager.cpp`).
`Segments` is the set of finished ranges and its merging; `QueueItem` chooses
ranges and books their ends, over any run of steps.

**Text codecs.** `Base32` (`client/Encoder.cpp`; section 6 of RFC 4648 without
padding) and `AdcCommand` (`client/AdcCommand.cpp`).

`Words`, `Bits`, `Sums`, `Perm` and `Counting` hold what the others share. 32-bit
arithmetic is written out where the code relies on it: `u32`, `i32` and `byte`
are range types, shifts that lose bits are reduced modulo 2^32, and C division
truncates.

Where the code and its documentation or the obvious expectation part:

- `Util::roundDown` rounds to the nearest multiple, half a block upwards.
  `QueueItem.RoundDownIff`: the result is not above the argument exactly if the
  remainder is in the first half of a block; above it, a larger range than
  wanted is asked for.
- `MerkleTree::update` documents that a length may be any multiple of the base
  block size. Zero is one, but an empty first update puts the hash of an empty
  base block in front of everything. `MerkleTree.PiecesIff`: whole pieces give
  the right root exactly if the first is not empty or there is no data at all.
- `addSegment` loses bytes when one range lies strictly inside the other
  (`Segments.InnerRangeCuts`); `Segments.AddCompleteIff` says exactly when it
  does not.
- The right root does not mean that a downloaded tree is the tree of the file.
  `TreeDownload.CountDecides`: it does exactly if there are no more leaves than
  the block size calls for; `TreeDownload.SurplusIff` and
  `TreeDownload.FourLeaves` say which numbers of leaves leave room for others.
- Not every printed command is read back: a NUL in the command code, an empty
  last parameter, a space in the features or, in the older form, a line end in a
  parameter are lost. `AdcCommand.RoundTripIff` and `AdcCommand.NmdcRoundTrip`
  say exactly which commands survive.
- On the fast output path a corrupt block is reported without saving where the
  output has got to, so that the caller does not learn of the bytes written in
  that call; `UnRle.FastOutput.UnRleFast` and the callers count them as lost. A
  caller that goes on all the same gets them in the next call: with less room
  than there are, it answers OK.
- After a checksum that does not fit, the finished checksum is left in the place
  of the running one, and the next call finishes it again: it accepts the block
  exactly if the stored checksum is the complement of the one computed
  (`Decompressor.BzDecompressor.BzDecompress`).

## Model

| member | source | states |
|---|---|---|
| `Stream.StreamRoundTrip` | bzip2/decompress.c:195-612 | decompressing a compressed stream gives exactly the bytes of its blocks and accepts every block checksum and the combined one, for any sorted-rotation order, any complete coding tables, any selectors, and whatever bits follow |
| `Compressor.CompressPieces` | bzip2/bzlib.c:407-464 | a caller with any pieces of input and any room for each call: the stream ends once the finishing calls had more room than the bound on its length, and then all output decompresses to the pieces in a row; the output never exceeds the bound, and is a stream of blocks that stand for the pieces, filled up with less than a byte of zeros |
| `Compressor.Encoder.BzCompress` | bzip2/bzlib.c:407-464 | for any sequence of calls, inputs and output room: input taken plus input left is what was supplied, output is a continuation, the answer fits the mode and the action, a call with another action or another length of input than announced is refused without changing anything at all, a call stops only when input or room is used up, a flush answers RunOk only when all input is in closed blocks and all their bits but less than a word have been handed out, a finishing call with room always makes progress, and when the stream has ended everything handed out is a stream of blocks that stand for everything taken in, and decompresses to it |
| `Compressor.Encoder.Retract` | bzip2/bzlib.c:442-455 | after a flush or the end was announced, any number of calls with other actions or other lengths of input are all refused, and once the caller is back at what it announced all is as it was before them |
| `OutputBound.BlockLength` | bzip2/compress.c:602-667 | a block takes at most 20 bits for each byte it stores and 168829 bits besides, whatever tables and selectors are chosen |
| `OutputBound.StreamLength` | bzip2/compress.c:602-667 | the length of a stream in terms of the bytes taken in and of the blocks closed before they were full |
| `OutputBound.FitsBehind` | bzip2/compress.c:619 | a block with a stream head and trailer fits into the second array behind the bytes of the block |
| `OutputBound.FullButNext` | bzip2/bzlib.c:377-386 | a full block stores at least nblockMAX bytes, so full blocks are as few as the input allows |
| `Decompressor.BzDecompressor.BzDecompress` | bzip2/bzlib.c:808-858 | one call in either memory mode: whatever input is still to come, the bytes handed out followed by the future of the new state are the future of the old state; it returns early only when out of room or out of bits; only the fast path, in the call that finds corruption, loses bytes it had written. A call after a bad block: a corrupt block goes on from where it was left and is bad again once there is room for the rest, answering OK with less room, and after a wrong checksum the complement of the one compared before is compared with the stored one |
| `Decompressor.DecompressPieces` | bzip2/bzlib.c:808-858 | a caller with any pieces of input and any room for each call: what it has received so far plus what remains is what the whole input decompresses to; bytes are lost only with a bad stream on the fast path; once all of a good stream is supplied, every call that does not end it fills its room |
| `Decompressor.DecompressStream` | bzip2/bzlib.c:808-858 | a compressed stream in any pieces and any room: no call fails, the output is a beginning of the original bytes, when the decompressor is done it is all of them, and it is done once the calls from the one with the last byte on have had more room than there are original bytes |
| `Progress.PiecewiseRoundTrip` | bzip2/bzlib.c:808-858 | however a compressed stream is cut up, the output so far is a beginning of the original bytes, at the end it is all of them, and with the stream supplied the decompressor never waits for more |
| `StreamFormat.StreamIs` | bzip2/compress.c:621-666 | a stream is the 32-bit number 0x425a6830 + level, the blocks, the 48-bit number 0x177245385090 and the combined checksum in 32 bits |
| `StreamFormat.EmptyStream` | bzip2/compress.c:656-666 | without input the stream is the head, the end mark and 32 zero bits |
| `StreamFormat.BlockIs` | bzip2/compress.c:630-653 | a block is 0x314159265359 in 48 bits, its checksum in 32, a zero bit, the index in 24, the mapping, 3 bits with the number of tables, 15 with the number of selectors, their positions in unary, the tables and the codes |
| `StreamFormat.BlocksGrow` | bzip2/compress.c:602-653 | another block: its bits are behind those before, its bytes behind theirs, and its checksum combined with theirs |
| `StreamFormat.OneBlock` | bzip2/compress.c:606-666 | the stream of one block ends with the checksum of that block |
| `StreamFormat.MagicExact` | bzip2/decompress.c:197-209 | for any bits, however few: refused as no such stream exactly if their whole bytes, up to four of them, do not agree with BZh and a digit from 1 to 9 |
| `StreamFormat.MarkExact` | bzip2/decompress.c:222-235 | six bytes behind the head that are neither mark are bad data; the end mark there is good exactly with a zero checksum |
| `Checksums.ChecksumsExact` | bzip2/bzlib.c:824-849 | a stream in which any checksums are stored is accepted exactly if that of every block is the one of its bytes and the last the one combined of them; otherwise it is bad data, and the first block with another checksum is the last to be handed out |
| `Crc.CombineBits` | bzip2/compress.c:607-608 | bit k of the combined checksum is bit (k + 1) % 32 of the one before or else bit k of the block checksum, not both |
| `Crc.ChecksumBits` | bzip2/bzlib_private.h:157-172 | for any table: the checksum is the complement, bit by bit, of a register that starts with ones and follows the bytes, each bit of it eight places on or else that of the entry for the top byte and the character, not both |
| `Crc.UpdateFollows` | bzip2/bzlib_private.h:167-172 | one step of the register is such a following |
| `FallbackQSort.SimpleSort` | bzip2/blocksort.c:32-59 | permutes the range and leaves it ordered by class, the coarse pass with stride 4 included |
| `FallbackQSort.Partition` | bzip2/blocksort.c:132-162 | three-way scan with equal entries parked at both ends: permutes only the range and meets in the middle |
| `FallbackQSort.SplitRange` | bzip2/blocksort.c:132-170 | after the block exchanges: below, equal and above the median, and both outer parts shorter than the range; or everything was equal |
| `FallbackQSort.RangeStack.PushLargerFirst` | bzip2/blocksort.c:172-177 | the smaller part is on top of the stack |
| `FallbackQSort.PushShares` | bzip2/blocksort.c:172-177 | pushing the larger part first keeps the range at depth t within 1/2^t of all entries |
| `FallbackQSort.DepthBound` | bzip2/blocksort.c:88-114 | a range large enough to be split is at depth at most 17 for any block size the program allows |
| `FallbackQSort.QSort3` | bzip2/blocksort.c:93-180 | permutes fmap[loSt..hiSt] and nothing else, leaves it ordered by class, and the stack never reaches its limit |
| `HeaderBits.SetBh` | bzip2/blocksort.c:205 | adds one position to the set of header bits |
| `HeaderBits.ClearBh` | bzip2/blocksort.c:206 | removes one position from the set of header bits |
| `HeaderBits.IsSetBh` | bzip2/blocksort.c:207 | tells whether a position is in the set |
| `HeaderBits.SkipWhile` | bzip2/blocksort.c:278-290 | skipping by bits and then whole words stops at the first position with the other value |
| `FallbackSort.RadixOrdered` | bzip2/blocksort.c:231-241 | the counting pass fills every slot once and orders by first character |
| `FallbackSort.RadixHeads` | bzip2/blocksort.c:243-245 | bits at the bucket starts mark exactly the changes of first character |
| `FallbackSort.BuildClasses` | bzip2/blocksort.c:266-271 | each rotation gets the bucket start of the rotation H characters later |
| `FallbackSort.Doubled` | bzip2/blocksort.c:273-313 | sorting every bucket by class doubles the depth to which the order and the header bits are right |
| `FallbackSort.NextBucket` | bzip2/blocksort.c:277-292 | finds the next bucket of more than one entry, stopped by the sentinel bits |
| `FallbackSort.RefineBuckets` | bzip2/blocksort.c:273-306 | one pass keeps entries in their buckets, orders them by class and sets header bits exactly at the new changes |
| `FallbackSort.Rebuild` | bzip2/blocksort.c:322-328 | restores the block from the character counts and the sorted order; the search never runs past 255 |
| `FallbackSort.Sort` | bzip2/blocksort.c:212-329 | for every block: a permutation whose rotations are non-decreasing, periodic blocks included, with the block restored |
| `FallbackSort.BlockSort` | bzip2/blocksort.c:1031-1090 | sorts and finds the position of the unrotated block; modelled for every block with the fallback sort |
| `Rotation.SortedLaw` | bzip2/blocksort.c:212-329 | sorted means that no rotation, written out as a string, is lexicographically less than one before it |
| `Rotation.CmpWhole` | bzip2/blocksort.c:311-313 | comparing more than a whole block decides like comparing one, so an order right to a depth beyond nblock is a sorted order, and the loop may end |
| `InverseBwt.NextIsAfter` | bzip2/decompress.c:565-570 | the row the walk moves to has a rotation equal to the one starting a character later, ties or not |
| `InverseBwt.WalkIsBlock` | bzip2/decompress.c:565-582 | walking from the row of the unrotated block emits the block, for any order of equal rotations |
| `InverseBwt.ColumnLaw` | bzip2/compress.c:163-167 | the last column is the last character of each rotation, written out as a string |
| `InverseSetup.BuildCftab` | bzip2/decompress.c:500-522 | cumulative counts of the column; the three range checks never fail for counts of a decoded block |
| `InverseSetup.BuildFast` | bzip2/decompress.c:565-570 | character and link packed in one word at every slot |
| `InverseSetup.LinkTable.SetLL` | bzip2/bzlib_private.h:458-470 | stores a 20-bit link in 16 + 4 bits; every other link is unchanged |
| `InverseSetup.LinkTable.GetLL` | bzip2/bzlib_private.h:464-473 | reads the 20-bit link back |
| `InverseSetup.BuildForward` | bzip2/decompress.c:532-540 | every position links to its slot |
| `InverseSetup.ReversalStep` | bzip2/decompress.c:545-551 | a reversal step never meets a visited row before it is back at the start |
| `InverseSetup.ReverseCycle` | bzip2/decompress.c:542-551 | the in-place reversal ends, and along the cycle through origPtr the links follow the walk |
| `UnRle.IndexIntoF` | bzip2/bzlib.c:687-698 | the binary search gives the character whose rows contain the index |
| `UnRle.FastOutput.GetFast` | bzip2/bzlib_private.h:444-456 | reads the next character of the block; the range check never fires on a decoded block |
| `UnRle.SmallOutput.GetSmall` | bzip2/bzlib_private.h:475-479 | the memory-saving read gives the same character |
| `UnRle.FutureLongRun` | bzip2/bzlib.c:582-586 | four equal characters and a count read as one run leave the same bytes to come |
| `UnRle.FastOutput.UnRleFast` | bzip2/bzlib.c:536-682 | for any room: bytes handed out plus bytes to come are the bytes that were to come; corruption is reported exactly when the block ends inside a count and there is room for all in front of it, and then the state is as before the call and the bytes written in it are not announced to the caller |
| `UnRle.SmallOutput.UnRleSmall` | bzip2/bzlib.c:706-804 | the same contract for the memory-saving path, which looks at room, run and block end in another order: it needs room for one byte more to find corruption, and does not lose what it has written |
| `RunLength.UnpackEncode` | bzip2/bzlib.c:216-247 | unpacking the stored runs gives the bytes they stand for, whatever character follows the block |
| `RunLength.UnpackRun` | bzip2/bzlib.c:224-246 | one stored run is read as that run and leaves the rest of the block |
| `RunLength.UnpackAny` | bzip2/bzlib.c:558-587 | blocks that no compressor makes included: up to three equal characters stand for themselves, four and any count for that many more, and four at the end of the block are corrupt |
| `RunLength.StoredLaw` | bzip2/bzlib.c:224-246 | runs of one to three bytes are stored as they are, longer ones as four bytes and the number of the others |
| `RunLength.RunsOnce` | bzip2/bzlib.c:260-284 | the runs, and so what a block stores, are determined by the bytes |
| `BitIO.BitWriter.BsW` | bzip2/compress.c:58-78 | appends exactly the n low bits of v to everything written |
| `BitIO.BitWriter.BsFinishWrite` | bzip2/compress.c:46-54 | pads with fewer than eight zero bits; nothing written is lost |
| `BitIO.BitReader.GetBits` | bzip2/decompress.c:43-65 | takes the next n bits, or consumes the input without losing a bit and waits |
| `SectionFormat.BitsOfNumber` | bzip2/compress.c:73-89 | the most significant bit of a number is written first |
| `SectionFormat.BitsOfBytes` | bzip2/compress.c:58-67 | byte i of the output is bits 8 * i to 8 * i + 7 of what was written |
| `Alphabet.MakeMapsE` | bzip2/compress.c:106-115 | numbers the used bytes by rank |
| `Alphabet.MakeMapsD` | bzip2/decompress.c:27-36 | lists the used bytes in order |
| `Alphabet.UsedAtRank` | bzip2/compress.c:106-115 | the numbering and the list are inverse to each other |
| `Alphabet.RankLaw` | bzip2/compress.c:106-115 | the number of a byte is how many used bytes are less than it |
| `GenerateMtf.FindAndMove` | bzip2/compress.c:189-206 | the shifting search returns the first position and moves that entry to the front |
| `GenerateMtf.FlushZeros` | bzip2/compress.c:174-188 | writes the bijective base-2 digits of the run |
| `GenerateMtf.GenerateMtfValues` | bzip2/compress.c:120-231 | the symbols of the last column, written over the pointers half a word at a time without losing one still to be read, and their frequencies |
| `Mtf.FeedZeroRun` | bzip2/decompress.c:385-404 | the run digits are read back as the run length, never meeting the 2M bound |
| `Mtf.MtfRoundTrip` | bzip2/decompress.c:378-492 | decoding the symbols of a column gives back the column |
| `Mtf.BadExact` | bzip2/decompress.c:381-427 | a symbol is bad exactly if it is a run digit whose weight has come to 2097152, or the zeros owed or one character more do not fit into the block |
| `SectionFormat.RunLaw` | bzip2/compress.c:174-188 | the digits of a run of zeros are 0 and 1, count for one and two, double from place to place and add up to the length of the run |
| `SectionFormat.SymbolsLaw` | bzip2/compress.c:163-228 | the symbols are the move-to-front numbers plus one, runs of zeros coded in digits |
| `MtfCache.SlideWindow` | bzip2/decompress.c:461-468 | lowering one window and writing one cell moves its sixteen entries down by one |
| `MtfCache.Cache.Fetch` | bzip2/decompress.c:430-480 | over any history the sixteen windows together are the plain list, with entry nn moved to the front |
| `MtfCache.Cache.Repack` | bzip2/decompress.c:469-478 | the repack at the bottom of the array changes no entry |
| `SymbolStage.ColumnBuilder.OnSymbol` | bzip2/decompress.c:381-492 | the decoder with saved locals, windows and counts reacts to every symbol as the list-level decoder does, errors included |
| `HuffmanTree.AddWeightsFields` | bzip2/huffman.c:25-31 | the packed sum adds the weights and takes one more than the larger height |
| `HuffmanHeap.UpHeap` | bzip2/huffman.c:33-42 | restores the heap after an insertion at the end |
| `HuffmanHeap.DownHeap` | bzip2/huffman.c:44-59 | restores the heap after the top was replaced |
| `HuffmanHeap.Pop` | bzip2/huffman.c:101-102 | removes a lightest node |
| `HuffmanTree.GrowSound` | bzip2/huffman.c:100-110 | merging two lightest roots keeps the forest sound: weights add up and merges come in order of weight |
| `HuffmanLengths.BuildTree` | bzip2/huffman.c:84-112 | one tree over all symbols, within the arrays |
| `HuffmanLengths.Measure` | bzip2/huffman.c:114-121 | each length is the depth of its symbol, and tooLong is set exactly if one exceeds maxLen |
| `HuffmanTree.LongCodesAreHeavy` | bzip2/huffman.c:114-147 | a code of more than maxLen bits needs a large total weight, at least 1023 for maxLen 17 |
| `HuffmanTree.ScalingLowers` | bzip2/huffman.c:142-146 | halving the weights strictly lowers their sum while that is more than two for each symbol |
| `HuffmanTree.LengthsComplete` | bzip2/huffman.c:114-121 | the depths satisfy the Kraft equality |
| `HuffmanOptimal.LightestLongest` | bzip2/huffman.c:100-110 | lengths of any prefix code can be changed, at no cost, so that the two lightest nodes share the greatest length |
| `HuffmanOptimal.FrontOptimal` | bzip2/huffman.c:100-110 | in front of every merge the depths are the cheapest lengths, because the nodes merged there are the lightest |
| `HuffmanOptimal.LengthsOptimal` | bzip2/huffman.c:100-121 | no lengths whose Kraft sum is at most 1 have a smaller sum weighted by the frequencies than the depths of the symbols |
| `HuffmanLengths.MakeCodeLengths` | bzip2/huffman.c:63-148 | ends, with lengths from 1 to maxLen whose Kraft sum is exactly 1, for any countable frequencies; no prefix code does better for the frequencies, halved as often as there were depths before that were over the limit, each those of the frequencies as they were then, and not at all if their sum is below that of the tallest tree |
| `Canonical.PrefixFree` | bzip2/huffman.c:152-166 | no code is the beginning of another |
| `Canonical.CodeFits` | bzip2/huffman.c:152-166 | every code fits its length under the Kraft inequality |
| `Canonical.AssignCodes` | bzip2/huffman.c:152-166 | assigns the canonical codes |
| `SectionFormat.CodeLaw` | bzip2/huffman.c:152-166 | a code, read as a fraction, is the sum of the shares of all symbols with shorter codes and of those before it with codes as long |
| `Canonical.CreateDecodeTables` | bzip2/huffman.c:170-200 | limit, base and perm are those of the lengths |
| `Canonical.CodeMatches` | bzip2/decompress.c:88-101 | the first n bits of a code are recognised as that symbol if they are all of it, and as too short otherwise |
| `Canonical.LookupInTable` | bzip2/decompress.c:90-101 | for any lengths, complete or not, a lookup only reads filled slots |
| `SendMtf.InitialTables` | bzip2/compress.c:279-317 | the starting tables favour consecutive stretches, the last table the first stretch, and every other symbol is dear in them; with frequencies that add up to the number of symbols and count the last one, the stretches cover the whole alphabet, and each is the shortest with no less than its share, or, every second one, that less its last symbol |
| `SendMtf.CountedFair` | bzip2/compress.c:157-228 | the frequencies counted for a block are such frequencies |
| `SendMtf.PairNext` | bzip2/compress.c:364-385 | two running costs packed in one word do not disturb each other |
| `SendMtf.FastCosts` | bzip2/compress.c:358-385 | the packed sums are the plain cost of the group in each of six tables |
| `SendMtf.SlowCosts` | bzip2/compress.c:387-393 | the same costs one symbol at a time |
| `SendMtf.Cheapest` | bzip2/compress.c:395-405 | the first table of least cost |
| `SendMtf.OneGroup` | bzip2/compress.c:352-432 | the group gets the first table that codes it in the fewest bits, and every table's counts are exactly the occurrences of each symbol in the groups it codes so far |
| `SendMtf.AssignGroups` | bzip2/compress.c:343-434 | one pass over the block: every group has the first of its cheapest tables, and the counts are exactly those of the groups each table codes |
| `SendMtf.TallySum` | bzip2/compress.c:407-430 | the counts of a table add up to no more than the symbols seen |
| `SendMtf.RecomputeTables` | bzip2/compress.c:445-452 | each table becomes the best code for the counts of the groups it codes |
| `SendMtf.ChooseTables` | bzip2/compress.c:271-458 | ceil(nMTF / 50) selectors, never more than 18002, each the first cheapest in the tables of the pass before, and complete tables of at most 17 bits, each the best for what it codes; 2, 3, 4, 5 or 6 tables with the bounds 200, 600, 1200 and 2400, and exactly four passes, each of which takes the tables of the one before |
| `BlockWriter.SelectorPositions` | bzip2/compress.c:461-478 | the positions of the selectors in a moved-to-front list |
| `SectionFormat.RecencyLaw` | bzip2/compress.c:461-478 | the number written for a selector is how many others were used since its last use, or, before its first, how many were used or come before it in the list |
| `SectionFormat.MappingLaw` | bzip2/compress.c:494-511 | sixteen bits say which groups of sixteen bytes have a used one, and sixteen more for each such group which |
| `SectionFormat.UnaryLaw` | bzip2/compress.c:521-524 | a selector position is that many ones and a zero |
| `SectionFormat.MovesLaw` | bzip2/compress.c:533-536 | each step of a code length is a one and a bit that says whether down |
| `SectionFormat.DataLaw` | bzip2/compress.c:544-593 | symbol k is written in the code of the table selected for group k / 50 |
| `SendBlock.SendMtfValues` | bzip2/compress.c:239-598 | writes mapping, selectors, code lengths and symbols in the block format, with tables that are the best for the groups they code, as many as the bounds say, and a selector for every fifty symbols |
| `TableDecoding.UnMtfSelectors` | bzip2/decompress.c:308-320 | undoing the selectors' move-to-front gives the selectors |
| `BlockDecoding.MappingBitsTake` | bzip2/decompress.c:266-284 | the decoder recovers which bytes are used |
| `TableDecoding.SelectorBitsTake` | bzip2/decompress.c:286-320 | the decoder recovers the number of tables and every selector |
| `TableDecoding.TablesTake` | bzip2/decompress.c:322-335 | the decoder recovers every code length from the delta code |
| `DataDecoding.SymbolTakes` | bzip2/decompress.c:74-102 | exactly length[s] bits of code[s] are read and s is returned, whatever bits follow |
| `DataDecoding.DataTakes` | bzip2/decompress.c:378-492 | the coded symbols are understood as the symbols, group by group |
| `Decoder.StepValid` | bzip2/decompress.c:167-615 | every step of the resumable decoder keeps its saved state in range |
| `Decoder.StepFails` | bzip2/decompress.c:195-335 | in front of the codes of a block a value is an error exactly if it is a wrong byte of a mark, an index above 10 + 100000 * level, the last bit of a mapping without used bytes, a number of tables other than 2 to 6, no selectors, a selector beyond the tables, or a length out of 1 to 20 |
| `DecoderRun.RunAppend` | bzip2/decompress.c:619-646 | suspending after any bits and resuming with the rest is the same as never suspending |
| `SymbolReader.SymbolDecoder.ReadSymbol` | bzip2/decompress.c:74-102 | reads one symbol or suspends, consuming exactly the bits the machine consumes |
| `SymbolReader.SymbolDecoder.DecodeSymbols` | bzip2/decompress.c:378-492 | reads symbols until the block ends, is bad, or input runs out, in step with the machine |
| `Decompressor.BzDecompressor.ReadHeader` | bzip2/decompress.c:195-353 | headers and tables, in step with the machine, whose marks, ranges and errors are those of StreamFormat.MagicExact, StreamFormat.MarkExact and Decoder.StepFails |
| `Decompressor.BzDecompressor.Emit` | bzip2/bzlib.c:819-840 | hands out the block, compares its checksum, and goes on to the next block or fails, and says what a failure leaves behind |
| `BlockRoundTrip.BlockDecodes` | bzip2/decompress.c:222-498 | the decoder reads exactly the bits of a block and is left with its column, checksum and index |
| `BlockRoundTrip.BlockUnpacks` | bzip2/decompress.c:524-582 | undoing the transform and the run-length layer gives the bytes of the block |
| `BlockRoundTrip.SymbolsDecode` | bzip2/decompress.c:378-492 | feeding a block's symbols to the decoder ends with its last column |
| `CompressBlock.SendOneBlock` | bzip2/compress.c:630-653 | sorts, transforms and sends a block: the bits written are those of a block the decoder accepts |
| `Compressor.Encoder.AddPairToBlock` | bzip2/bzlib.c:216-247 | closes the open run: block bytes, used bytes and checksum all grow by it |
| `Compressor.Encoder.AddChar` | bzip2/bzlib.c:260-284 | closed blocks, open block and open run together are the bytes consumed, and nblock stays within nblockMAX + 4 |
| `Compressor.Encoder.CopyInputUntilStop` | bzip2/bzlib.c:289-329 | moves input into the block until it is full or the input is used up, and no further than announced |
| `Compressor.Encoder.CopyOutputUntilStop` | bzip2/bzlib.c:334-356 | hands out finished bytes in order |
| `Compressor.Encoder.CompressBlock` | bzip2/compress.c:602-667 | header, block and trailer: what has been written is the stream of the closed blocks, which StreamFormat spells out |
| `Compressor.Encoder.PrepareNewBlock` | bzip2/bzlib.c:117-126 | starts a block without losing the bits that do not yet form a byte |
| `Compressor.Encoder.HandleCompress` | bzip2/bzlib.c:361-403 | alternates until nothing more can be done; ends, and says why it stopped |
| `Thex.TreeJoin` | client/MerkleTree.h:208-216 | a full left tree and a right one no larger form the tree of the whole |
| `Thex.TreeDetermines` | client/MerkleTree.h:195-202 | equal tree hashes mean equal data |
| `Thex.HashLaw` | client/MerkleTree.h:182-202 | up to 1024 bytes are a leaf; more are a node over the first 1024 * 2^k of them and the others, where these are the most that leave some |
| `MerkleTree.CarryStep` | client/MerkleTree.h:204-222 | merging equal subtrees keeps the data and the binary-counter shape |
| `MerkleTree.ReducedStands` | client/MerkleTree.h:204-222 | the carries keep the data, never take a leaf back, and leave strictly decreasing sizes on the stack |
| `MerkleTree.AddedStands` | client/MerkleTree.h:96-119 | the lists after an update stand for the data before and the piece, unless something incomplete came before |
| `MerkleTree.Tree.Update` | client/MerkleTree.h:96-119 | on any tree the leaves and the stack are the fold of the base blocks of the piece, an empty one of an empty tree included; while nothing incomplete came before, the hashed data grows by the piece |
| `MerkleTree.Tree.LeavesSoFar` | client/MerkleTree.h:96-119 | while data may follow there is one right leaf for every complete block |
| `MerkleTree.FinishedHonest` | client/MerkleTree.h:121-138 | merging what is left on the stack gives the leaves of the data, as many as it has blocks |
| `MerkleTree.Tree.Finalize` | client/MerkleTree.h:121-138 | the leaves are those of the data, as many as it has blocks, and the root is its tree hash |
| `MerkleTree.Tree.GetHash` | client/MerkleTree.h:182-193 | the root that the leaves determine |
| `MerkleTree.EmptyStart` | client/MerkleTree.h:96-119 | an empty first piece leaves the lists that a base block of anything would, with that block emptied, whatever follows |
| `MerkleTree.PiecesIff` | client/MerkleTree.h:91-138 | whole pieces give the root of their data exactly if the first is not empty or there is no data at all |
| `MerkleTree.HashPieces` | client/MerkleTree.h:96-138 | for pieces that are whole base blocks apart from the last non-empty one, and any block size: the root is the recursive base-1024 tree hash exactly if the first piece is not empty or all are |
| `MerkleTree.Tree.Load` | client/MerkleTree.h:58-66 | leaves loaded from elsewhere give the root of a file exactly if they are the leaves of that file |
| `TreeLeaves.RangeRoot` | client/MerkleTree.h:182-193 | a range of leaves gives the hash of its data exactly if every leaf is right |
| `Thex.CutCount` | client/MerkleTree.h:84-86 | data cut into k blocks has k blocks |
| `TreeDownload.CalcBlockSize` | client/MerkleTree.h:76-82 | the smallest block size that needs no more leaves than the levels allow, within twice the file size |
| `TreeDownload.LeavesWithin` | client/MerkleTree.h:84-89 | the number of leaves then stays within that bound, so the 16-bit count does not wrap |
| `CheckStream.MerkleCheckOutputStream.constructor` | client/MerkleCheckOutputStream.h:30-41 | starts with the leaves in front of the start position |
| `CheckStream.MerkleCheckOutputStream.CommitBytes` | client/MerkleCheckOutputStream.h:60-88 | rebuffers any write into whole base blocks without losing a byte |
| `CheckStream.MerkleCheckOutputStream.CheckTrees` | client/MerkleCheckOutputStream.h:108-117 | true exactly if all leaves so far are among the known ones |
| `CheckStream.MerkleCheckOutputStream.Write` | client/MerkleCheckOutputStream.h:90-94 | goes through exactly if every complete block so far is that of the file, and only then passes the data on |
| `CheckStream.MerkleCheckOutputStream.Flush` | client/MerkleCheckOutputStream.h:45-58 | goes through exactly if the data is a beginning of the file that ends with it or with a block |
| `CheckStream.Transfer` | client/MerkleCheckOutputStream.h:45-94 | any pieces and one flush go through exactly if their bytes complete such a beginning of the file |
| `CheckStream.PrefixIff` | client/MerkleCheckOutputStream.h:108-117 | leaves of complete blocks are those of the file exactly if the blocks are |
| `CheckStream.FewerIff` | client/MerkleCheckOutputStream.h:51-56 | finished leaves, fewer than those of the file, are among them exactly if the data ends with a block |
| `TreeDownload.TreeOutputStream.Write` | client/QueueManager.cpp:1084-1104 | complete hashes and buffered bytes together are all bytes received |
| `TreeDownload.Receive` | client/QueueManager.cpp:1079-1115 | leaf data in any pieces is read in groups of 24 bytes |
| `TreeDownload.GroupsAre` | client/QueueManager.cpp:1084-1104 | the groups of a byte string are determined by it |
| `TreeDownload.RecoverBlockSize` | client/DownloadManager.cpp:318-320 | finds the sender's block size whenever there are at least two leaves, and one that serves as well with a single leaf; the number of leaves is right for the block size found exactly if it is for some block size |
| `TreeDownload.EndData` | client/DownloadManager.cpp:315-336 | accepts exactly if the leaves that the block size calls for are those of the wanted file, and what is accepted is the tree of the file exactly if there are no more leaves than that; the honest tree of any block size is accepted |
| `TreeDownload.SurplusAccepted` | client/DownloadManager.cpp:318-336 | behind the leaves that a block size calls for, any others can stand without changing the root |
| `TreeDownload.CountDecides` | client/DownloadManager.cpp:318-336 | for every file, block size and number of leaves: the right root means the right leaves exactly if there are as many as the block size calls for |
| `TreeDownload.SurplusIff` | client/DownloadManager.cpp:318-336 | the block size found calls for fewer leaves than there are exactly if no block size calls for that many |
| `TreeDownload.FourLeaves` | client/DownloadManager.cpp:318-336 | four leaves for a file of five base blocks are such a number, so the fourth may be anything |
| `TreeDownload.Download` | client/DownloadManager.cpp:291-336 | from the bytes of the leaves, in any pieces, to the answer: accepted exactly if the hashes read from them that the block size calls for are those of the file |
| `TreeDownload.DownloadSent` | client/DownloadManager.cpp:291-336 | the leaf data of an honest tree, cut into any pieces, is accepted with the same leaves, and with the same block size if there are two or more |
| `Segments.MergedSeparate` | client/QueueItem.cpp:278-298 | ranges that do not meet are left alone |
| `Segments.AddKeepsSeparate` | client/QueueItem.cpp:278-298 | finished ranges stay in order, disjoint and not adjacent, whatever is added |
| `Segments.AddSound` | client/QueueItem.cpp:278-298 | nothing is marked finished that was not finished before or added |
| `Segments.AddCompleteIff` | client/QueueItem.cpp:278-298 | all of it is marked finished exactly if no range lies strictly inside the other |
| `Segments.InnerRangeCuts` | client/QueueItem.cpp:278-298 | adding [10,20) to [0,100) leaves [0,20) |
| `QueueItem.Item.AddSegment` | client/QueueItem.cpp:278-298 | the loop over the set, with its erasures and insertion, joins the ranges in order |
| `QueueItem.Target` | client/QueueItem.cpp:157-164 | the size to ask for is a multiple of the block size, at least one block, and within half a block of a wanted size above one block |
| `QueueItem.RoundDownIff` | client/Util.h:260-262 | the result is a multiple within half a block of the argument, and not above it exactly in the first half of a block |
| `QueueItem.SingleBlock` | client/QueueItem.cpp:173-186 | for aligned ranges, a block not fully done is not touched by any |
| `QueueItem.Item.GetNextSegment` | client/QueueItem.cpp:166-216 | the first free range, block-aligned, as large as the target and its surroundings allow; none exactly if every block is taken |
| `QueueItem.Item.PutDownload` | client/QueueManager.cpp:1330-1396 | a finished range, or the whole blocks of a failed one, is added exactly; running ranges stay disjoint from each other and from what is finished |
| `QueueItem.NoneLeft` | client/QueueItem.cpp:166-216 | if every block is taken by finished ranges, one range covers the file |
| `QueueItem.Drain` | client/QueueItem.cpp:166-216 | taking and finishing range after range finishes the file in at most one round for each block, whatever sizes are wanted |
| `QueueItem.Execute` | client/QueueManager.cpp:1330-1396 | every run of allocations, data, ends and failures keeps the invariants, and what it finishes is exactly the whole of each range that ended and the whole blocks that had come in of each that failed |
| `Base32.ToBase32` | client/Encoder.cpp:51-78 | character i is the one at the place in ABC...XYZ234567 that five bits of the bytes spell, the last group filled with zeros |
| `Base32.SpanningBits` | client/Encoder.cpp:59-66 | masking, shifting and joining give the five bits across two bytes |
| `Base32.CharIs` | client/Encoder.cpp:49 | the alphabet |
| `Base32.FromBase32` | client/Encoder.cpp:80-110 | the bits of all recognised characters, up to the end of the text or of the result; which they are, in both cases, and which bits they have, is Base32.ValueExact |
| `Base32.ValueExact` | client/Encoder.cpp:30-47 | a character is recognised exactly if its upper case is in the alphabet, and then its value is the place there |
| `Base32.EitherCase` | client/Encoder.cpp:80-110 | text in either case decodes to the same bytes |
| `Base32.DecodedAt` | client/Encoder.cpp:80-110 | in decoded text of the alphabet, five bits from 5 * i on spell the place of character i |
| `Base32.RoundTrip` | client/Encoder.cpp:51-110 | decoding gives back the bytes, foreign characters in between or not |
| `Base32.EncodedClean` | client/Encoder.cpp:49-78 | an encoded string is all alphabet |
| `AdcCommand.Escape` | client/AdcCommand.cpp:170-186 | the in-place loop escapes every special character |
| `AdcCommand.EscapedRead` | client/AdcCommand.cpp:76-92 | an escaped parameter is read as the parameter, in both forms |
| `AdcCommand.Command.GetHeaderString` | client/AdcCommand.cpp:188-213 | the type or the old prefix, the command code up to its first NUL, and the ids the type asks for |
| `AdcCommand.Command.GetParamString` | client/AdcCommand.cpp:226-238 | each parameter escaped behind a space, and the line end |
| `AdcCommand.Command.ToString` | client/AdcCommand.cpp:162-168 | header, parameters and line end |
| `AdcCommand.Command.Parse` | client/AdcCommand.cpp:37-160 | a line is accepted exactly if it is long enough, of one of the types B C D E F I H U, without a bad escape, and its words are as many and as long as the type asks for; then the ids of the type and the parameters are those words, and the lines of type I are from four bytes of ones |
| `AdcCommand.WordsTaken` | client/AdcCommand.cpp:76-147 | the reading loop hands the words of the line, escapes undone, one after another to the ids and parameters, wherever it is |
| `AdcCommand.IdsAre` | client/AdcCommand.cpp:198-211 | types B, D, E and F print the own id, D and E that of the other, and F the features |
| `AdcCommand.EscapedIs` | client/AdcCommand.cpp:170-186 | space, line end and backslash become two characters each, all others stay, one by one |
| `AdcCommand.BadId` | client/AdcCommand.cpp:96-107 | an id with a space or backslash never reads as a word of four characters |
| `AdcCommand.RoundTripIff` | client/AdcCommand.cpp:37-238 | for any kind, code, ids, features and parameters: printing and reading back gives the command exactly if the kind is known, the code has no NUL, the ids are plain, the features read as one word in fives with a last parameter that is not empty, or have one space too many and only empty parameters |
| `AdcCommand.FeatureList` | client/AdcCommand.cpp:94-116 | which feature lists are read as one word that comes in fives with the parameters intact, escapes and stray spaces included |
| `AdcCommand.CutShort` | client/AdcCommand.cpp:188-196 | a command code with a NUL is not read back: a space stands where the NUL was, or the line is too short |
| `AdcCommand.NmdcRoundTrip` | client/AdcCommand.cpp:37-238 | the older form comes back exactly for client commands whose code has no NUL, whose parameters have no line ends and whose last one is not empty |
| `AdcCommand.OneLine` | client/AdcCommand.cpp:170-238 | a printed command has no other line end than its own unless its ids, or its code in front of a NUL, bring one in |

## Left out

- HuffmanLengths.MakeCodeLengths: asks that the frequencies, with zeros counted as ones, add up to less than the packed 32-bit weights can hold (the compressor never passes more than 900050), and that maxLen is not so small for the number of symbols that halving could go on forever; 16 is enough for 258 symbols.
- SendMtf.InitialTables: what it says of the shares is for frequencies that are the counts of the block (SendMtf.CountedFair); any starting tables lead to a stream that decodes.
- SendMtf.ChooseTables: the four passes are not compared with one another; a table is the best for its counts with zeros taken for ones, not for the counts themselves.
- FallbackSort.BlockSort: the main sort, its work budget and its quicksort are not modelled; every block goes to the fallback sort, which meets the same contract.
- Compressor.Encoder.BzCompress: null pointers and mismatched stream structures are not modelled; the caller provides input and room between calls (Provide).
- Decompressor.BzDecompressor.BzDecompress: randomised blocks are recognised but not decoded (verdict RandomisedBlock), and calls after an error in a header or in the symbols of a block are not modelled; those after a bad block or after the end are.
- TreeDownload.RecoverBlockSize: without leaves the loop in the code ends only for an empty file, and that is required; EndData asks for at least one leaf, because the code then reads the first.
- CheckStream.MerkleCheckOutputStream.Flush: one flush ends the use of the stream; a second one appends leaves again and is not modelled.
- QueueItem.Item.GetNextSegment: the floating-point size curve and the speed limit are parameters of any value; single-chunk mode, partial sources and overlapped chunks are not modelled, and the block size is the same in all calls.
- Base32.FromBase32: the result has at least one byte unless there is nothing to decode; with none the code writes out of bounds.
- The values of the checksum table: the checksum is a fold over an arbitrary table, the same on both sides.
- Sharing of memory: the compressor's output area inside its second array (large enough by OutputBound.FitsBehind), and the decompressor's table reused for every block, are separate arrays here; the pointers overwritten by symbols are modelled in place.
- Memory errors, allocation callbacks, the totals of bytes in and out, verbosity printing, the FILE interface and the command line program.
- Byte-identical compressed output for different input pieces, which does not hold: block boundaries can differ.
- Overflow of 64-bit file sizes in tree and segment arithmetic.
- The 24 bytes of a hash value: leaves are free constructors in the tree modules and 24-byte strings in TreeOutputStream; TreeDownload.Download takes the reading of a hash from its bytes as a parameter.
- Commands with a client identifier in place of a session identifier, and the conversion of session identifiers to machine words.
- Sockets, threads, timers, settings, listeners, logging, file moves and the rest of `client/`.
