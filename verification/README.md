# Verified models of the grub4dos readers

grub4dos reads files through a stack of stateful readers: decompressors with circular dictionaries, file
systems with small caches, a track cache above the disk, an allocator below all of them. Each component
keeps state to save work, and must behave as if that state were not there. This project models the
components as Dafny classes and methods, in the form of the C code, and proves each of them equal to a
plain functional meaning: the flat output of a compressed stream, the device after its journal has been
replayed, the disk without a cache, the cluster chain of a file, the list of blocks in the arena.

`dafny verify dfyconfig.toml` checks the whole project.

## How it is organised

| files | component | the meaning it is proved against |
|---|---|---|
| `LzmaGrammar`, `LzmaRange`, `LzmaStream`, `LzmaDryRun`, `LzmaDec`, `LzmaHeader`, `LzmaRead`, `LzmaTurned` | LZMA decoder (`stage2/dec_lzma.c`) | a machine with unbounded output that decodes one symbol after the other, its bits asked for by a grammar of phases |
| `LzmaSymbols`, `LzmaEffects`, `LzmaWriter`, `LzmaFile` | the LZMA format | the bits of each symbol, its effect, the probabilities it shares, and a range encoder that the machine undoes |
| `Huffman`, `HuftSpace`, `HuftCounts`, `HuftLayout`, `HuftBuild`, `HuftCanonical` | `huft_build` (`stage2/gunzip.c`) | canonical codes of RFC 1951, section 3.2.2 |
| `Deflate`, `BitReader`, `GunzipBlocks`, `GunzipHeaders`, `Gunzip` | inflate (`stage2/gunzip.c`) | a step function on bits and unbounded output, RFC 1951, sections 3.2.3 to 3.2.7 |
| `FixedCodes`, `DeflateFormat`, `DeflateStream`, `GunzipFile` | the deflate format | the fixed codes, and a writer of tokens, headers, blocks and streams that inflating undoes |
| `ReiserJournal`, `ReiserWriter`, `ReiserForgotten`, `ReiserTree` | ReiserFS (`stage2/fsys_reiserfs.c`) | the device with all transactions replayed, and a journal written word by word; the items of the tree in order |
| `TrackCache`, `BlockList` | disk access (`stage2/disk_io.c`) | the disk as bytes; the concatenated extents |
| `Ext2Map`, `Ext4Map`, `Fat`, `FatPath` | block maps (`stage2/fsys_ext2fs.c`, `stage2/fsys_fat.c`) | the flat list of blocks; the flat list of extents; the cluster chain and the data area it cuts up |
| `Lz4`, `Lz4Format` | LZ4 frames (`stage2/dec_lz4.c`) | blocks decoded one after the other against unbounded output, and a writer of frames that decoding undoes |
| `HeapLayout`, `Heap` | `grub_malloc`, `grub_free` (`stage2/common.c`) | the list of blocks that tile the arena |
| `MemoryMap` | `mmap_avail_at` (`stage2/common.c`) | the set of covered addresses |
| `Numbers` | printing and parsing (`stage2/char_io.c`) | positional notation in unbounded integers |
| `Words`, `Arith`, `Bits`, `History`, `Slices` | shared | words, bit strings, LZ copies, slices |

Fields that the C code updates are fields of a class, with the same names where that helps; loops are
loops. 32-bit, 64-bit and 16-bit wrap-around is written out wherever a computation can meet it. The
decompressors carry the output produced so far as a ghost field, and their invariant says that going on
from the current state gives the outcome of the whole stream. Whether a window boundary, a chunk boundary
or a restart comes in between therefore cannot show in what a read returns.

The meanings themselves are tied to the formats by writers that do not use them: the bits, bytes or words
that a format puts down for some content are written out, and a lemma says that for all contents the meaning,
and with it the reader, gives the content back (`LzmaFile.ReadWritten`, `GunzipFile.ReadWritten`,
`Lz4Format.ReadFrame`, `ReiserWriter.ReadWritten`, `FatPath.ReadFile`, `TrackCache.WrittenReadBack`).

Errors of the C code are results. Streams for which the C code promises nothing (it would read beyond a
table, or beyond its input) have the outcome `Unknown`, and the readers require another outcome.

## Results that differ from what one would expect

Each of these is a property that the code does not always have. The member named first says exactly when it
has it, for all inputs; the member named as an example is a concrete input, or a run from the constructor,
for which it fails.

- `dec_lzma_read` counts positions from the start of the dictionary's current round, since the file position
  of the dictionary is never advanced. `LzmaRead.LzmaReader.Read` says where its bytes come from: from the
  position asked for plus `Base()`. That is the slice asked for while `Base()` is zero, and a read that gets
  all its bytes leaves `Base()` as it was if and only if the position asked for plus the length is at most
  the size of the dictionary. Example: `LzmaTurned.FirstByteTwice`, and `LzmaTurned.FirstByteAt` for every
  reader of that file. For the same reason the branches that restart decoding or copy from the upper part of
  the dictionary are never taken.
- Freeing a block in use does not always release it. `HeapLayout.FreeExact` and `Heap.Heap.Free` say that it
  does if and only if the first block that begins at the pointer is in use and as long; for a block that is
  not empty this means that no other block begins there (`HeapLayout.FoundAlone`). It fails after an exact
  fit before a block in use, which leaves an empty free block at that block's address
  (`Heap.ExactFitLeaks`), and after a request that wraps around 32 bits, which takes an empty block
  (`Heap.WrappedRequestLeaks`). Disjointness and tiling always hold.
- `grub_malloc` gives less than the size asked for exactly when rounding wraps around 32 bits
  (`HeapLayout.RoundedIsEnough`, `Heap.Heap.Malloc`). Example: `Heap.WrappedRequestLeaks`.
- `ext4fs_block_map` accepts some blocks that no extent covers. `Ext4Map.HoleAccepted` says which: those
  before the extent at which the searches end, and the one directly behind it, which includes the first block
  of every hole behind an extent (`Ext4Map.HoleStartAccepted`). Examples: `Ext4Map.HoleExamples`.
- `rawwrite` refreshes the cached track by the drive's geometry, while a track of an LBA drive has 127
  sectors. `TrackCache.DiskCache.RawWrite` says exactly when it succeeds, and when the cache is wrong
  afterwards; `TrackCache.DiskCache.RawRead` says what is read then. Example: `TrackCache.StaleTrack`.
- The count of journal transactions is kept in 16 bits, so it is wrong exactly from 65536 transactions on
  (`ReiserJournal.NoneForgotten`). Example: `ReiserForgotten.AllForgotten`, and `ReiserForgotten.NoneCounted`
  for every reader of that journal. Blocks that the transactions forgotten do not log are still read right
  (`ReiserJournal.Journal.UnloggedLater`).
- A FAT32 entry is taken with all its 32 bits, which are the 28 bits of the format exactly if the top four
  are zero (`Fat.Fat32Bits`). Example: `Fat.Fat32Example`.
- An unsigned decimal text is read back exactly if bit 63 is clear (`Numbers.UnsignedRoundTrip`, which covers
  the failing ones, too); the parser takes decimal numbers up to 2^63 behind any of its three signs.

In three places the code differs from its own comments, or from what its comments lead one to expect, without
harm to any caller:

- `huft_build` may size a sub-table one bit wider than its bound. `HuftBuilder.HuftBuild` promises working
  tables for widths that fit (`Fits`), which is a sufficient condition; `HuftCanonical.WideFits` and
  `HuftCanonical.DistanceFits` show that all callers' widths do. What happens at other widths is not decided
  here.
- For lengths that are all zero `huft_build` returns 0, although the comment above it
  (`stage2/gunzip.c:555-559`) says 2; the model follows the code.
- The comment in the number parser (`stage2/char_io.c:1463-1467`) says that hexadecimal numbers are not
  checked; the code refuses those of more than 64 bits, and so does the model.

## Model

| member | source | states |
|---|---|---|
| `LzmaGrammar.AdvanceValid` | stage2/dec_lzma.c:469-725 | every answered bit leads from a valid point inside a symbol to a valid point, and the bits still to come shrink, so no symbol goes on for ever |
| `LzmaGrammar.AskInTable` | stage2/dec_lzma.c:410-430 | every probability consulted inside a symbol lies in the table of the stream's properties |
| `LzmaRange.BranchFreeForms` | stage2/dec_lzma.c:640-650 | the subtract-and-add-back form of the decoder and the masked form of the dry run leave the same code for every code and half range |
| `LzmaRange.DirectBitIsComparison` | stage2/dec_lzma.c:640-658 | on a well-formed coder both are the plain comparison with half the range, and the code stays within the range |
| `LzmaRange.AdaptedStays` | stage2/dec_lzma.c:335-337 | both updates keep a probability within [31, 2017] |
| `LzmaRange.RunKeepsProbs` | stage2/dec_lzma.c:333-341 | decoding any number of bits keeps every probability within [31, 2017] |
| `LzmaRange.NoSlotTwice` | stage2/dec_lzma.c:410-420 | within one symbol no probability is consulted twice: the slot asked for is ahead, and never ahead again once it is answered |
| `LzmaRange.DryRunAgrees` | stage2/dec_lzma.c:803-991 | a decoder that never updates its table and one that does see the same end of input, the same symbol and the same coder within one symbol |
| `LzmaRange.ShrinkAdvance` | stage2/dec_lzma.c:125-128 | each answered bit uses up its share of the bound on how far a symbol can shrink the range |
| `LzmaRange.SymbolNeedsAtMostTwenty` | stage2/dec_lzma.c:125-128 | from any normalised range and any probabilities in [31, 2017], one symbol with its final normalisation reads at most 20 bytes |
| `LzmaSymbols.LengthFollowed` | stage2/dec_lzma.c:577-608 | the bits of a length, that is its choices and the digits within its range of 8, 8 or 256 from the highest on, lead through the walk to that length |
| `LzmaSymbols.SlotRange` | stage2/dec_lzma.c:612-650 | the slots cut the distances into consecutive ranges: a distance below 4 is its own slot, and each further binary digit has two slots |
| `LzmaSymbols.DistanceFollowed` | stage2/dec_lzma.c:612-677 | the bits of a distance, that is its slot and then the low digits backwards or, from slot 14 on, direct digits and four alignment digits backwards, lead to that distance, and the largest to the end marker |
| `LzmaSymbols.SymbolWalk` | stage2/dec_lzma.c:469-677 | the walk over the bits of any symbol, written down without the grammar, ends in that symbol and not before, in every context |
| `LzmaSymbols.SymbolsDiffer` | stage2/dec_lzma.c:469-677 | the bits of one symbol never begin those of another |
| `LzmaSymbols.ComparedWalk` | stage2/dec_lzma.c:492-510 | a literal behind a match is compared with the match byte for as long as its bits agree with that byte's highest ones |
| `LzmaEffects.ApplyEffect` | stage2/dec_lzma.c:486-725 | a literal appends its byte; any other symbol appends bytes each of which repeats the one a distance before it, the chosen distance being moved to the front of the last four or pushed on them |
| `LzmaEffects.ApplyRefuses` | stage2/dec_lzma.c:526-684 | a symbol is refused exactly if it copies from before the output, a new distance also if it exceeds the dictionary; the stream ends exactly at the marker |
| `LzmaEffects.StateFollows` | stage2/dec_lzma.c:511-727 | the state is a function of the kinds of the last four symbols |
| `LzmaEffects.SameTables` | stage2/dec_lzma.c:481-484 | two outputs select the same literal table exactly if they are equally long modulo 2^lp and their last bytes agree in the top lc bits; the position modulo 2^pb alone selects the other tables |
| `LzmaEffects.MatchByteIs` | stage2/dec_lzma.c:492-495 | the byte that a literal is compared with lies the last distance back |
| `LzmaEffects.AdaptedMoves` | stage2/dec_lzma.c:335-337 | a probability moves a thirty-second of the way towards the bit seen, rounded down |
| `LzmaEffects.SlotsTell` | stage2/dec_lzma.c:410-430 | two bits share a probability if and only if they agree in what they are to depend on: kind of question, state and position, or table, comparison and the bits before |
| `LzmaWriter.RunUndone` | stage2/dec_lzma.c:333-361 | any bits put through a range encoder, under any probabilities, are read back as the symbol they lead to, with the probabilities of the encoder and its place in the stream |
| `LzmaWriter.WrittenRead` | stage2/dec_lzma.c:1026-1145 | every list of symbols that copy from within output and dictionary has a stream, five bytes to start the coder and those shifted in later, from which the machine decodes just these symbols with their effects, whatever follows |
| `LzmaWriter.EveryOutput` | stage2/dec_lzma.c:1026-1145 | every sequence of bytes is the output of some stream, for all properties |
| `LzmaStream.Step` | stage2/dec_lzma.c:469-725 | one symbol keeps the machine in order (every kept distance reaches bytes already produced and fits the dictionary) and only appends to the output |
| `LzmaStream.StepsFed` | stage2/dec_lzma.c:1026-1145 | what has been decoded does not change when more input follows |
| `LzmaStream.StepsUnfed` | stage2/dec_lzma.c:1026-1145 | input that a run did not reach had no influence on it |
| `LzmaStream.RunsAgree` | stage2/dec_lzma.c:1026-1145 | two runs over the same stream, one of which has been fed more of it, have outputs of which one begins the other |
| `LzmaDecoder.LzmaDec.NormalizeRange` | stage2/dec_lzma.c:333-333 | is the normalisation of the reference coder and keeps 32-bit range and code |
| `LzmaDecoder.LzmaDec.DecodeBit` | stage2/dec_lzma.c:335-341 | consults and updates the slot that the grammar asks for and moves one step of the walk that leads to the symbol |
| `LzmaDecoder.LzmaDec.DecodeDirectBit` | stage2/dec_lzma.c:639-660 | the branch-free bit is the direct bit of the grammar |
| `LzmaDecoder.LzmaDec.DecodeLength` | stage2/dec_lzma.c:577-608 | the two choices and the chosen tree give the length of the grammar, below 272 |
| `LzmaDecoder.LzmaDec.DecodeDistance` | stage2/dec_lzma.c:612-677 | slot, special or direct and alignment bits give the distance of the grammar as a 32-bit number |
| `LzmaDecoder.LzmaDec.LiteralProb` | stage2/dec_lzma.c:481-484 | the literal table is the one that the whole output selects, although only the dictionary and a wrapping counter are looked at |
| `LzmaDecoder.LzmaDec.EmitLiteral` | stage2/dec_lzma.c:486-511 | appends one byte to the output and moves the state as a literal does |
| `LzmaDecoder.LzmaDec.DecodeRep` | stage2/dec_lzma.c:528-575 | a repeated match or short repeat has the effect of its symbol, with the four distances reordered |
| `LzmaDecoder.LzmaDec.AcceptMatch` | stage2/dec_lzma.c:678-726 | a new distance is accepted only if it reaches bytes produced and lies within the dictionary, and refused only if it does not or there is no room; then nothing is written |
| `LzmaDecoder.LzmaDec.CopyMatch` | stage2/dec_lzma.c:694-724 | a match copied as far as the limit allows, plus its tail, is the match copied at once, on the circular dictionary with source wrapping around it |
| `LzmaDecoder.LzmaDec.EmitMatch` | stage2/dec_lzma.c:692-724 | the dictionary goes on holding the last bytes of the output; what is left over of the match is remembered only at the limit |
| `LzmaDecoder.LzmaDec.DecodeSymbol` | stage2/dec_lzma.c:469-727 | one symbol on the circular dictionary is one step of the machine with unbounded output |
| `LzmaDecoder.LzmaDec.InputEnough` | stage2/dec_lzma.c:1083-1102 | 20 bytes, or 21 before a pending normalisation, always hold a whole symbol |
| `LzmaDecoder.LzmaDec.DecodeReal` | stage2/dec_lzma.c:447-742 | a run of symbols up to the output limit or up to 20 bytes before the end of input never reads beyond the input and is that many steps of the machine; an error is an error of the stream |
| `LzmaDecoder.LzmaDec.WriteRem` | stage2/dec_lzma.c:744-768 | finishing a split match completes the same output that the whole match would have, and leaves markers alone |
| `LzmaDecoder.LzmaDec.DecodeReal2` | stage2/dec_lzma.c:770-793 | runs cut where the dictionary is first filled are still steps of the machine |
| `LzmaDecoder.LzmaDec.TryDummy` | stage2/dec_lzma.c:803-991 | reports an error exactly when the next symbol needs more bytes than there are, otherwise the kind of that symbol, and changes nothing |
| `LzmaDecoder.LzmaDec.Init` | stage2/dec_lzma.c:1001-1012 | a new stream: nothing fed, nothing produced |
| `LzmaDecoder.LzmaDec.InitStateReal` | stage2/dec_lzma.c:1014-1024 | the state from which the reference machine starts |
| `LzmaDecoder.LzmaDec.ReadHeader` | stage2/dec_lzma.c:1039-1053 | collects five bytes over any number of calls; refuses a first byte other than zero |
| `LzmaDecoder.LzmaDec.TurnTemp` | stage2/dec_lzma.c:1111-1140 | a symbol split between two calls is completed from the bytes kept back, and exactly the bytes it used are counted as consumed; it is refused only if it is bad or goes beyond the limit |
| `LzmaDecoder.LzmaDec.DecodeToDic` | stage2/dec_lzma.c:1026-1145 | every call keeps: the dictionary and the machine stand where the bytes consumed so far lead; each status means what it says, in particular more input is asked for only when all of it was taken and it holds no further symbol; an error is reported only for a bad stream or for one whose output goes on beyond the limit at which the caller wanted it to end |
| `LzmaDecoder.LzmaDec.PeekedGoesOn` | stage2/dec_lzma.c:1085-1099 | at the limit, a next symbol that is no match, as the dry run tells it, makes more output or is an error of the stream; it is no end marker |
| `LzmaDecoder.ChunkingInvisible` | stage2/dec_lzma.c:1026-1145 | two decoders fed the same stream in any pieces and with any limits have outputs of which one begins the other |
| `LzmaDecoder.LzmaDec.WrapDic` | stage2/dec_lzma.c:1386-1392 | turning a full dictionary back to its start keeps the decoder where it stands in the stream |
| `LzmaRead.NothingReported` | stage2/dec_lzma.c:1402-1404 | on a stream without errors the decoder never reports one, whose result this caller ignores |
| `LzmaRead.LzmaReader.Refill` | stage2/dec_lzma.c:1372-1382 | loses and repeats no byte of the compressed file |
| `LzmaRead.LzmaReader.Decode` | stage2/dec_lzma.c:1393-1414 | makes progress in input or output unless the stream holds no further symbol; never produces more than asked for |
| `LzmaRead.LzmaReader.CopyLower` | stage2/dec_lzma.c:1344-1369 | what lies in the lower part of the dictionary is the output of the current round |
| `LzmaRead.LzmaReader.Read` | stage2/dec_lzma.c:1274-1433 | after any reads, forwards or backwards, returns the output from the position asked for plus Base() on, Base() being what the dictionary has been turned round by; a read that gets all it asks for leaves Base() as it was if and only if it ends inside a dictionary's length from the start of the round; fewer bytes only at the end of the stream |
| `LzmaHeader.OpenExact` | stage2/dec_lzma.c:1161-1263 | opens exactly the files that begin with a header for a property byte below 225, a dictionary of 4K to 2G whose size is a power of two, and a known length; these are then settings the decoder is made for |
| `LzmaHeader.OpenEncoded` | stage2/dec_lzma.c:1176-1203 | a header written for such settings is read back, whatever follows it |
| `LzmaTurned.StreamSound` | stage2/dec_lzma.c:1274-1433 | a valid stream for every setting of the properties: one byte 128, then zeros |
| `LzmaTurned.FirstByteAt` | stage2/dec_lzma.c:1274-1433 | whatever a reader of that stream has been asked before, what it finds at a place of the output begins with 128 only at the start; a read at position 0 begins with 128 if and only if Base() is zero |
| `LzmaTurned.FirstByteTwice` | stage2/dec_lzma.c:1348-1392 | a run on that file, which opening accepts for every such setting: reading byte 0, then one byte more than the dictionary holds, then byte 0 again gives 128 the first time and 0 the second, Base() no longer being zero |
| `LzmaFile.MarkedSteps` | stage2/dec_lzma.c:1026-1145 | a written stream with an end marker is decoded symbol after symbol up to the marker, ends there and never errs |
| `LzmaFile.ReadWritten` | stage2/dec_lzma.c:1161-1433 | opening a file that was written, header and stream, and reading at any place gives the bytes of its output there, all that there are |
| `LzmaRead.SameBytes` | stage2/dec_lzma.c:1274-1433 | readers of one file deliver the same bytes for the same place of the output, whatever they were asked before |
| `LzmaDryRun.CheckInput` | stage2/dec_lzma.c:363-363 | normalises as the coder does, or fails exactly when the input has ended |
| `LzmaDryRun.CheckDirect` | stage2/dec_lzma.c:966-973 | a direct bit of the dry run is that of the decoder; failure means that the symbol is not all there |
| `LzmaDryRun.DryDistance` | stage2/dec_lzma.c:946-986 | the dry distance ends where the decoder's does, whatever its value |
| `LzmaDryRun.DryRep` | stage2/dec_lzma.c:871-944 | the dry repeat ends where the decoder's does |
| `HuftCanonical.PrefixFree` | stage2/gunzip.c:561-746 | unless the lengths are oversubscribed, no symbol's canonical code (section 3.2.2 of RFC 1951) starts another's |
| `HuftCanonical.UniqueSymbol` | stage2/gunzip.c:561-746 | at most one symbol's code starts a given bit string |
| `HuftCanonical.FirstCodeZero` | stage2/gunzip.c:650-742 | the first code is all zeros |
| `HuftCanonical.NextIsBehind` | stage2/gunzip.c:650-742 | in order of length, then symbol, each code is the one before plus one with zeros behind it, without gaps |
| `HuftCanonical.KraftIsSum` | stage2/gunzip.c:623-629 | the room that decides about oversubscribed and incomplete lengths is the sum of 2^-length over the symbols |
| `HuftCanonical.WidthIsAsked` | stage2/gunzip.c:607-621 | the width of the first table is the one asked for, brought within the shortest and the longest length in use |
| `HuftCounts.CountLengths` | stage2/gunzip.c:591-599 | counts how many codes have each length |
| `HuftCounts.Extent` | stage2/gunzip.c:607-621 | finds the shortest and the longest length in use |
| `HuftCounts.FillCodes` | stage2/gunzip.c:623-629 | refuses exactly the oversubscribed lengths, and otherwise adds to the longest length what completes the code |
| `HuftCounts.Offsets` | stage2/gunzip.c:631-638 | the offset of a length is the number of shorter codes |
| `HuftCounts.SortSymbols` | stage2/gunzip.c:640-648 | lists every symbol with a code at its place in order of length, then value |
| `HuftBuilder.SubtreeIsBig` | stage2/gunzip.c:672-685 | where only codes of k bits or more are left below a prefix of a complete code, there are so many of them that k is less than the table width further down |
| `HuftBuilder.SizeTable` | stage2/gunzip.c:672-685 | the width chosen for a table suits all codes below it or is at least that of the tables above; at the widths in use it never exceeds them |
| `HuftBuilder.Fill` | stage2/gunzip.c:725-728 | changes exactly the entries whose low bits are the code |
| `HuftBuilder.Increment` | stage2/gunzip.c:730-733 | on the bit-reversed code is the next code of the same length |
| `HuftBuilder.PopTables` | stage2/gunzip.c:735-740 | goes back exactly to the table whose prefix the next code has |
| `HuftBuilder.OpenTable` | stage2/gunzip.c:667-707 | a new table is linked at its prefix and disturbs no code written before |
| `HuftBuilder.WriteCode` | stage2/gunzip.c:725-740 | a code's entries overwrite no other code's, and the builder is ready for the next code |
| `HuftLayout.AddClaim` | stage2/gunzip.c:725-728 | painting a new entry keeps every entry and link made before |
| `HuftLayout.PushChild` | stage2/gunzip.c:687-706 | linking a new table keeps all tables and the stack in order |
| `HuftLayout.PlaceCode` | stage2/gunzip.c:709-740 | writing the current code and stepping back keeps all tables and the stack in order |
| `HuftLayout.WalkReaches` | stage2/gunzip.c:779-795 | a walk over the tables reaches every table whose prefix the bits start with |
| `HuftLayout.WalkFinds` | stage2/gunzip.c:779-795 | looking up bits that start with a written code gives its entry and drops the whole code |
| `HuftBuilder.AllRefused` | stage2/gunzip.c:709-712 | bits that start with no symbol's code start with a dummy code, and are found invalid if every symbol has a code |
| `HuftBuilder.BuildTables` | stage2/gunzip.c:650-742 | at the widths in use every symbol is found through the tables by its canonical code, and, if every symbol has one, other bits are found invalid |
| `HuftBuilder.HuftBuild` | stage2/gunzip.c:561-746 | returns 2 exactly for oversubscribed and 1 exactly for incomplete lengths (one single one-bit code excepted); whenever it accepts and the widths fit, looking up any bits that start with a symbol's canonical code gives its meaning and drops exactly its code, and if every symbol has a code, any other bits are found invalid |
| `HuftCanonical.WideFits` | stage2/gunzip.c:464-465 | widths of 7 and 9 fit all codes shorter than twice the width |
| `HuftCanonical.DistanceFits` | stage2/gunzip.c:464-465 | width 6 fits every accepted set of up to 30 distance codes of up to 15 bits |
| `Deflate.LengthsAreConsecutive` | stage2/gunzip.c:410-418 | the length symbols stand for consecutive ranges that fill 3 to 258, whose top has a symbol of its own (section 3.2.5 of RFC 1951) |
| `Deflate.DistancesAreConsecutive` | stage2/gunzip.c:419-428 | the distance symbols stand for consecutive ranges that fill 1 to 32768 |
| `Deflate.OrderIsOutwards` | stage2/gunzip.c:407-409 | the order of the code length code by formula |
| `DeflateFormat.LengthOnce` | stage2/gunzip.c:410-418 | every length has exactly one symbol and extra bits, but for 258, which has its own beside the end of another's range |
| `DeflateFormat.DistanceOnce` | stage2/gunzip.c:419-428 | every distance from 1 to 32768 has exactly one symbol and extra bits |
| `DeflateFormat.TokenUndone` | stage2/gunzip.c:779-838 | the bits of any literal, end or match, whose length and distance are code, base and extra bits from the lowest on, are read as that token, and exactly they are taken |
| `DeflateFormat.TokensUndone` | stage2/gunzip.c:779-855 | a block of tokens written down has the output of the tokens |
| `DeflateStream.StoredRefused` | stage2/gunzip.c:897-907 | a stored block is refused exactly if its second length word is not the complement of the first |
| `DeflateStream.LengthsUndone` | stage2/gunzip.c:1011-1063 | length lists written with the three repeats are read back |
| `DeflateStream.HeadingUndone` | stage2/gunzip.c:959-1093 | a dynamic header written for any two length vectors is read as their two codes, and refused exactly if one of them is not acceptable |
| `DeflateStream.TooManyRefused` | stage2/gunzip.c:978-991 | a dynamic header with more than 286 or more than 30 codes is refused |
| `DeflateStream.LengthCodeRefused` | stage2/gunzip.c:1007-1011 | a dynamic header is refused if its code length code is not acceptable |
| `DeflateStream.OverrunRefused` | stage2/gunzip.c:1014-1063 | a dynamic header is refused if a repeat goes beyond the lengths to be sent |
| `DeflateStream.LengthRefused` | stage2/gunzip.c:795-816 | length symbols 286 and 287 are refused |
| `DeflateStream.KindRefused` | stage2/gunzip.c:1131-1190 | a block of the fourth kind is refused |
| `DeflateStream.InflateUndone` | stage2/gunzip.c:888-1190 | any stream of stored, fixed and dynamic blocks inflates to the output of what was written |
| `DeflateStream.EveryOutput` | stage2/gunzip.c:921-957 | every file has a deflate stream that inflates to it |
| `FixedCodes.FixedCode` | stage2/gunzip.c:921-957 | the fixed codes are those of the table in section 3.2.6 of RFC 1951, bit by bit |
| `BitInput.FileBitsAre` | stage2/gunzip.c:509-522 | the bits of a file are those of its bytes in order, each from its lowest on |
| `Deflate.StepProgress` | stage2/gunzip.c:1132-1187 | every step of inflating takes bits and only adds to the output |
| `BitInput.BitReader.GetByte` | stage2/gunzip.c:524-534 | delivers the bytes of the file one after the other through its 8K buffer |
| `BitInput.BitReader.NeedBits` | stage2/gunzip.c:516-516 | changes nothing of the bits still to be read and fetches no more than a byte too many |
| `BitInput.BitReader.DumpBits` | stage2/gunzip.c:517-517 | drops the first bits of those still to be read, which are the low bits of the buffer |
| `BitInput.BitReader.Rewind` | stage2/gunzip.c:1196-1206 | all bits of the compressed data are to be read again |
| `GunzipBlocks.WalkTables` | stage2/gunzip.c:779-795 | follows the multi-level tables as their definition says and consumes the bits of the entries passed |
| `GunzipBlocks.DecodeSymbol` | stage2/gunzip.c:779-795 | finds the symbol whose canonical code comes next and consumes just that code, or that there is no such symbol |
| `GunzipBlocks.NextDistance` | stage2/gunzip.c:818-837 | the distance half of a match is that of section 3.2.5; fails exactly for bits that are no distance code |
| `GunzipBlocks.NextToken` | stage2/gunzip.c:779-838 | the next literal, match or end of block is the one RFC 1951 defines; fails exactly for a symbol or a distance code that must not occur |
| `GunzipBlocks.InitStoredBlock` | stage2/gunzip.c:888-913 | length and complement from the next byte boundary; fails exactly if they do not agree |
| `GunzipHeaders.FixedLitKraft` | stage2/gunzip.c:926-934 | the fixed literal lengths are a complete code of at most 9 bits |
| `GunzipHeaders.InitFixedBlock` | stage2/gunzip.c:920-955 | never fails and gives tables for the fixed codes of section 3.2.6 |
| `GunzipHeaders.FixedDistanceRefused` | stage2/gunzip.c:942-948 | in a fixed block exactly the distance codes 30 and 31, which do not occur in valid data, are refused |
| `GunzipHeaders.BuildLengthTable` | stage2/gunzip.c:1005-1011 | accepts exactly complete sets (or none, or a single one-bit code) and gives a single table |
| `GunzipHeaders.ReadCodeLengths` | stage2/gunzip.c:995-1003 | the code length code's lengths in their special order, zero for those not sent |
| `GunzipHeaders.ReadLengthList` | stage2/gunzip.c:1013-1067 | the list of code lengths with its three kinds of repeat; fails exactly when a repeat goes beyond the end |
| `GunzipHeaders.BuildTrees` | stage2/gunzip.c:1076-1088 | accepts exactly the sets of lengths that the format allows, and gives tables for them |
| `GunzipHeaders.InitDynamicBlock` | stage2/gunzip.c:960-1093 | header and tables of a dynamic block (section 3.2.7); fails exactly where the format is broken |
| `History.CopySplit` | stage2/gunzip.c:842-873 | a match copied in two parts is the match copied at once |
| `History.CopyPeriodic` | stage2/gunzip.c:842-873 | a copied byte repeats the one a distance before it, also within the copy |
| `Gunzip.CopyRepeats` | stage2/gunzip.c:842-873 | what an LZ copy appends repeats the output a distance before, position by position |
| `Gunzip.CopyPiece` | stage2/gunzip.c:845-863 | one piece of a match, moved or copied with overlap in the circular window, is the next part of the output |
| `Gunzip.Gunzip.CopyMatch` | stage2/gunzip.c:842-867 | copies up to the end of the match or of the window; a suspended match goes on as if never interrupted |
| `Gunzip.Gunzip.InflateToken` | stage2/gunzip.c:779-840 | one symbol leaves the whole outcome as it was, or is the error that the whole outcome has |
| `Gunzip.Gunzip.InflateCodes` | stage2/gunzip.c:756-883 | decodes up to the end of the block or of the window; the outcome of going on is that of the whole file |
| `Gunzip.Gunzip.CopyStored` | stage2/gunzip.c:1160-1177 | a stored block is passed through up to its end or the end of the window |
| `Gunzip.Gunzip.GetNewBlock` | stage2/gunzip.c:1096-1128 | reads the next block's header and tables, or meets the error of the whole outcome |
| `Gunzip.Gunzip.InflateWindow` | stage2/gunzip.c:1131-1190 | each call without an error puts the next 32K of the output into the window |
| `Gunzip.Gunzip.InitializeTables` | stage2/gunzip.c:1193-1210 | starting again leads to the same output |
| `Gunzip.Gunzip.Serves` | stage2/gunzip.c:1242-1245 | the window holds the 32K before the saved position, at their position modulo 32K |
| `Gunzip.Gunzip.Read` | stage2/gunzip.c:1213-1267 | after any sequence of reads and seeks returns exactly the bytes of the whole inflated output at the current position, wherever the window boundary falls and whether or not decoding starts again; an error only if the file is broken |
| `GunzipFile.ReadWritten` | stage2/gunzip.c:1213-1267 | reading a file that was written gives its output, also over two reads |
| `ReiserJournal.Journal.ChainBounded` | stage2/fsys_reiserfs.c:501-559 | no more transactions can follow each other than the journal has blocks, so the search ends |
| `ReiserJournal.Journal.ReplayedAt` | stage2/fsys_reiserfs.c:401-466 | replaying a transaction changes exactly the blocks it logs |
| `ReiserJournal.JournalReader.CacheTransaction` | stage2/fsys_reiserfs.c:518-556 | puts a transaction's list into the table, or closes the table when it does not fit; the lists before are kept |
| `ReiserJournal.JournalReader.JournalInit` | stage2/fsys_reiserfs.c:475-567 | finds exactly the maximal run of complete transactions, around the end of the circular log, and caches as many lists as fit; fails exactly if the header names no block of the journal |
| `ReiserJournal.JournalReader.FoundOnce` | stage2/fsys_reiserfs.c:501-516 | only one number of transactions can be the maximal run |
| `ReiserJournal.NoneForgotten` | stage2/fsys_reiserfs.c:564-565 | the 16-bit count of transactions is exact just when there are fewer than 65536 |
| `ReiserForgotten.AllFound` | stage2/fsys_reiserfs.c:501-564 | a valid journal of 65536 complete, well-formed transactions in a row, behind the superblock, which a search finds to be the whole run |
| `ReiserForgotten.NoneCounted` | stage2/fsys_reiserfs.c:564-565 | every reader that has searched this journal counts no transaction, so that the block that all of them log reads as before, not as the 7 that replaying them leaves |
| `ReiserForgotten.AllForgotten` | stage2/fsys_reiserfs.c:401-567 | a run: a reader that finds all 65536 and counts none, and the block it returns |
| `ReiserJournal.Journal.UnloggedLater` | stage2/fsys_reiserfs.c:401-466 | a reader that has counted only the first of several transactions still reads every block right that the others do not log |
| `ReiserJournal.JournalReader.SearchTable` | stage2/fsys_reiserfs.c:413-424 | which entry of a cached list names the block, if any, and where the next list begins |
| `ReiserJournal.JournalReader.SearchDisk` | stage2/fsys_reiserfs.c:432-449 | which entry of the two list blocks on disk names the block, if any |
| `ReiserJournal.JournalReader.BlockRead` | stage2/fsys_reiserfs.c:401-466 | reading a block through the journal is reading it after all transactions have been replayed in order, however many of them are cached |
| `ReiserWriter.TransactionUndone` | stage2/fsys_reiserfs.c:498-551 | a transaction laid out word by word, descriptor, data and commit block, is complete and sound, logs just the blocks written and is followed by what lies behind its commit block |
| `ReiserWriter.ChainUndone` | stage2/fsys_reiserfs.c:496-560 | of a journal written from the first unflushed block on just the written transactions are found |
| `ReiserWriter.AllUndone` | stage2/fsys_reiserfs.c:401-466 | replaying them gives every block as it was written last |
| `ReiserWriter.ReadWritten` | stage2/fsys_reiserfs.c:401-567 | a reader set up on a written journal of fewer than 65536 transactions, with any size of table, reads every block as it was written last |
| `ReiserTree.NarrowDown` | stage2/fsys_reiserfs.c:842-858 | going down at the first greater key keeps every item with the key sought |
| `ReiserTree.ItemsDown` | stage2/fsys_reiserfs.c:777-792 | going down one level leaves the same items to come |
| `ReiserTree.LessIsNumeric` | stage2/fsys_reiserfs.c:844-848 | keys compare as numbers, the directory being the highest part |
| `ReiserTree.ItemsAscend` | stage2/fsys_reiserfs.c:748-795 | if the keys separate the children and the leaves ascend, all items ascend in the order in which they are visited |
| `ReiserTree.ReiserCursor.ReadTreeNode` | stage2/fsys_reiserfs.c:692-723 | afterwards the level's slot holds the node; no other slot and no other level's block number changes |
| `ReiserTree.ReiserCursor.FindChild` | stage2/fsys_reiserfs.c:842-852 | the first key above the object's first item |
| `ReiserTree.ReiserCursor.FindLevel` | stage2/fsys_reiserfs.c:750-764 | the lowest level with a child left to visit; none exactly when no item is left |
| `ReiserTree.ReiserCursor.ReopenLevel` | stage2/fsys_reiserfs.c:766-775 | the path's node at a level, read again if another level has taken its slot |
| `ReiserTree.ReiserCursor.DescendToLeaf` | stage2/fsys_reiserfs.c:777-792 | leads to the leaf that holds the next item, with the rest of the items still to come |
| `ReiserTree.ReiserCursor.SearchStat` | stage2/fsys_reiserfs.c:820-884 | stands at an item with the key such that all items are those before it, it, and those ahead; in an ordered tree fails only if no item has the key |
| `ReiserTree.ReiserCursor.NextKey` | stage2/fsys_reiserfs.c:728-808 | moves to exactly the next item in tree order, none skipped or repeated, although upper levels share a slot; the dummy item comes exactly at the end |
| `TrackCache.Offset127Exact` | stage2/disk_io.c:340-356 | the remainder computed from two 32-bit halves is the sector number modulo 127 |
| `TrackCache.WrittenBack` | stage2/disk_io.c:417-428 | writing back whole sectors changes only the bytes that were changed in the buffer |
| `TrackCache.DiskCache.RawDiskRead` | stage2/disk_io.c:398-398 | reads sectors into the buffer; fails for sectors behind the end of the disk and for one that looks like the mark of a failed read |
| `TrackCache.DiskCache.FillTrack` | stage2/disk_io.c:380-411 | the buffer holds the needed sectors of the track, read whole, in part, or only as required after an error; fails only if a sector of the request cannot be read |
| `TrackCache.DiskCache.LoadTrack` | stage2/disk_io.c:380-411 | the same for any state of the cache, except that a track that counts as cached is taken as it is, right or wrong; what the buffer holds is right afterwards if it was before or has been read |
| `TrackCache.DiskCache.StoreBack` | stage2/disk_io.c:417-428 | a write changes exactly the bytes asked for on the disk, and the cached track is given up |
| `TrackCache.DiskCache.Transfer` | stage2/disk_io.c:329-465 | track after track, the disk's own bytes are read or changed up to the end of the request or the first sector that cannot be read; a read leaves its last track cached; a read within the track that counts as cached gives what the buffer holds |
| `TrackCache.DiskCache.RawRead` | stage2/disk_io.c:260-466 | over any sequence of calls reads return the disk's own bytes and writes change just the bytes asked for, as if there were no cache; a failed call has done a prefix, and some sector cannot be read; with a cache that is wrong, a read within the cached track gives the buffer's bytes |
| `TrackCache.DiskCache.RawWrite` | stage2/disk_io.c:517-560 | succeeds exactly for a sector on the disk of a known drive that does not look like the mark of a failed read; then writes that sector and nothing else, and otherwise nothing; the cache stays right if and only if the sector is not one of the cached track behind the sectors that the geometry counts |
| `TrackCache.DoneIs` | stage2/disk_io.c:412-462 | byte by byte: a read delivers what the sectors hold and changes nothing, a write changes just the bytes that it names |
| `TrackCache.BadIs` | stage2/disk_io.c:380-411 | a sector is refused exactly if it ends behind the disk or begins with four times `BAD?` |
| `TrackCache.WrittenReadBack` | stage2/disk_io.c:260-466 | what was written is read back |
| `TrackCache.StaleTrack` | stage2/disk_io.c:260-560 | on an LBA drive with 63 sectors counted, reading sector 0, writing sector 100 and reading it again gives the byte of before, while the disk has the one written |
| `BlockList.ContentsAt` | stage2/disk_io.c:2221-2302 | the part of the file that belongs to an extent is that extent of the disk |
| `BlockList.Cursor.Advance` | stage2/disk_io.c:2250-2264 | moves the cursor forward by a number of sectors, over extent boundaries |
| `BlockList.Cursor.Seek` | stage2/disk_io.c:2232-2267 | forwards or from the start, the cursor names the extent and sector that contain the position |
| `BlockList.Cursor.Read` | stage2/disk_io.c:2221-2302 | after any seeks and reads returns the slice of the concatenated extents and moves the position by its length |
| `Ext2Map.SlotsDistinct` | stage2/fsys_ext2fs.c:539-618 | each logical block has a pointer slot of its own |
| `Ext2Map.SlotInside` | stage2/fsys_ext2fs.c:539-618 | the slots of all reachable blocks lie inside their pointer blocks |
| `Ext2Map.WalkIsFlat` | stage2/fsys_ext2fs.c:539-618 | the walk for a logical block finds its entry in the flat list of the file's blocks: 12 of the inode, then the leaves in order below the single, double and triple block |
| `Ext2Map.BlockMap.Find` | stage2/fsys_ext2fs.c:515-619 | with its two cached pointer blocks, after any earlier calls, gives what the direct, single, double or triple walk without a cache gives |
| `Ext2Map.BlockMap.Map` | stage2/fsys_ext2fs.c:515-619 | with its two cached pointer blocks, after any earlier calls, gives the block of the flat list |
| `Ext4Map.SearchIndex` | stage2/fsys_ext2fs.c:625-640 | the last entry that does not begin behind the target, or the first one |
| `Ext4Map.SearchExtent` | stage2/fsys_ext2fs.c:646-661 | the last extent that does not begin behind the target, or the first one |
| `Ext4Map.FlatWithin` | stage2/fsys_ext2fs.c:667-737 | all extents below an index entry lie in the range of that entry |
| `Ext4Map.DownTo` | stage2/fsys_ext2fs.c:701-721 | the extent that covers a block lies below the entry found |
| `Ext4Map.LeafUnique` | stage2/fsys_ext2fs.c:723-736 | only the extent found can cover the block |
| `Ext4Map.EndingCovers` | stage2/fsys_ext2fs.c:667-737 | the two searches always end at an extent of the tree, and at the one that covers the block if there is one |
| `Ext4Map.EndingIsNext` | stage2/fsys_ext2fs.c:667-737 | no extent of the tree begins between a block and the extent where the searches end |
| `Ext4Map.Map` | stage2/fsys_ext2fs.c:667-737 | on a well-formed tree of any depth the block is accepted exactly if it is at most one behind the extent where the searches end, and counts from that extent; a covered block maps as in the flat list of extents |
| `Ext4Map.HoleAccepted` | stage2/fsys_ext2fs.c:730-736 | a block in a hole is accepted exactly if it lies before the extent where the searches end or directly behind it |
| `Ext4Map.HoleStartAccepted` | stage2/fsys_ext2fs.c:730-736 | the first block behind any extent is always accepted, wherever in the tree that extent is kept |
| `Ext4Map.HoleExamples` | stage2/fsys_ext2fs.c:723-736 | two leaves with a hole of which one block is accepted and another refused, and with an accepted block before the first extent |
| `Fat.NibblesMask` | stage2/fsys_fat.c:449-457 | masking keeps the lowest half bytes |
| `Fat.CutOut` | stage2/fsys_fat.c:449-457 | shift and mask cut the 12, 16 or 32 bits of an entry out of the word at its byte, also when it begins in mid-byte or straddles sectors |
| `Fat.Fat32Bits` | stage2/fsys_fat.c:449-457 | the 32 bits taken for a FAT32 entry are its 28 bits if and only if the top four are zero |
| `Fat.Fat32Example` | stage2/fsys_fat.c:449-457 | an entry 5 with one of the top bits set, taken for 0x10000005 |
| `Fat.FatFile.NextEntry` | stage2/fsys_fat.c:432-457 | the entry taken through the cached 2K part of the FAT is the entry on the disk |
| `Fat.FatFile.Follow` | stage2/fsys_fat.c:427-469 | goes along the chain to the cluster wanted, or tells that the chain ends or is damaged before it |
| `Fat.FatFile.Read` | stage2/fsys_fat.c:416-495 | at any position, after any earlier reads, returns the file's bytes in the order of its cluster chain, fewer only where the chain ends; fails only if the chain is damaged within the range |
| `FatPath.PathIsChain` | stage2/fsys_fat.c:427-469 | clusters each of which is named by the entry before, up to an end mark, are the chain that is followed |
| `FatPath.DamagedBehind` | stage2/fsys_fat.c:459-466 | where an entry below the end mark names no cluster the chain is damaged, and not before |
| `FatPath.DataByte` | stage2/fsys_fat.c:472-473 | the data of the clusters of a path are the slices of the data area that begin at cluster 2 and lie one behind the other |
| `FatPath.FileByteIs` | stage2/fsys_fat.c:416-495 | the bytes of the file are those of its path's data |
| `FatPath.ReadFile` | stage2/fsys_fat.c:416-495 | reading at any position gives the slice of the path's data, all that there is |
| `Lz4.OpenExact` | stage2/dec_lz4.c:74-190 | accepts exactly the headers with the magic number, version 1, a content size, no reserved bits and a block size of 64K, 256K, 1M or 4M, and takes block size and check sum flag from them |
| `Lz4.RunGrows` | stage2/dec_lz4.c:237-355 | decoding only appends to the output |
| `Lz4.BlockGrows` | stage2/dec_lz4.c:282-350 | a block only appends, within its limit |
| `Lz4.ReadLength` | stage2/dec_lz4.c:298-306 | the loop over length bytes adds them up to the first that is not 255 or the end of the block |
| `Lz4.CopyLiterals` | stage2/dec_lz4.c:318-321 | the literals are appended to the history that the dictionary holds |
| `Lz4.CopyMatch` | stage2/dec_lz4.c:342-348 | a match, also one that overlaps its own result, is the LZ copy of the unbounded history |
| `Lz4.DecodeSequence` | stage2/dec_lz4.c:284-349 | literals and match are those of the format against unbounded history; fails exactly if the data end too early |
| `Lz4Format.PieceUndone` | stage2/dec_lz4.c:284-349 | literals and a match written down, the distance low byte first and the lengths as runs of 255 and a rest, are decoded again, whatever follows |
| `Lz4Format.BlockUndone` | stage2/dec_lz4.c:277-355 | a block written down is decoded again |
| `Lz4Format.CutRefused` | stage2/dec_lz4.c:284-316 | a block cut short where a sequence should begin, or within literals announced, is refused |
| `Lz4.DecodeBlock` | stage2/dec_lz4.c:277-355 | a block decodes as it would against unbounded output, at any place of the dictionary |
| `Lz4.SlideHolds` | stage2/dec_lz4.c:263-270 | moving the last 64K to the front keeps dictionary position j the output byte 64K before the file position plus j |
| `Lz4.Lz4Reader.Reset` | stage2/dec_lz4.c:213-223 | starting again leads to the same output |
| `Lz4.Lz4Reader.Slide` | stage2/dec_lz4.c:263-270 | makes room for a block of the largest size; the wanted position moves along |
| `Lz4.Lz4Reader.NextBlock` | stage2/dec_lz4.c:243-355 | the next block, raw or compressed, extends the history as the frame says; fails exactly at the frame's bad block |
| `Lz4.Lz4Reader.Read` | stage2/dec_lz4.c:192-370 | after any seeks and reads returns exactly the output at the position asked for, fewer bytes only at the end of the output; fails exactly if the frame is broken and the bytes before the bad block are not enough |
| `Lz4Format.FrameUndone` | stage2/dec_lz4.c:192-370 | a frame of raw and compressed blocks has the output that was written |
| `Lz4Format.ReadFrame` | stage2/dec_lz4.c:192-370 | reading such a frame at any position gives the bytes of its output there, all that there are, without error |
| `HeapLayout.RoundedIsEnough` | stage2/common.c:272-272 | the rounded size is a multiple of 16 with 16 bytes to spare exactly when the sum does not wrap around |
| `HeapLayout.FirstFit` | stage2/common.c:274-282 | the first free block whose space up to the next address word is enough |
| `HeapLayout.FirstFitIs` | stage2/common.c:274-282 | the block taken is the first free one that is long enough; the bit in the next address word makes no difference |
| `HeapLayout.TakenTiles` | stage2/common.c:284-302 | splitting keeps the blocks tiling the arena, at multiples of 16 |
| `HeapLayout.TakenLive` | stage2/common.c:284-304 | allocating adds one block in use of exactly the rounded size, also an empty one, and leaves every other as it is |
| `HeapLayout.LiveDisjoint` | stage2/common.c:268-353 | two blocks in use never overlap |
| `HeapLayout.FreedTiles` | stage2/common.c:332-348 | joining keeps the tiling, and no two free neighbours remain |
| `HeapLayout.FreedLive` | stage2/common.c:332-348 | freeing a block that is in use takes exactly that one out of use and leaves every other as it is |
| `HeapLayout.TakenSolid` | stage2/common.c:284-304 | allocating makes an empty block in use exactly if the rounded size is zero |
| `HeapLayout.FreedSolid` | stage2/common.c:332-348 | freeing makes no empty block in use |
| `HeapLayout.FreedShadowed` | stage2/common.c:330-349 | freeing a block in front of which an empty free block stands changes nothing |
| `HeapLayout.FreeExact` | stage2/common.c:323-353 | on every heap, freeing a block in use by its base releases exactly that block if and only if the first block that begins there is in use and as long; if the first one is free, nothing changes |
| `HeapLayout.FoundAlone` | stage2/common.c:323-353 | for a block in use that is not empty the condition is that no other block, free or in use, begins at its base |
| `HeapLayout.FoundUnlessShadowed` | stage2/common.c:323-353 | where no block in use is empty the condition is that no empty free block stands in front |
| `HeapLayout.MallocThenFree` | stage2/common.c:268-353 | freeing what was just allocated leaves the blocks in use as they were before if and only if the new block is the first at its address, or it and the first one there are both empty and in use; in the former case the whole heap is restored |
| `Heap.SplitLinks` | stage2/common.c:284-302 | linking a descriptor for the rest of a block keeps the list free of cycles and every used descriptor on it |
| `Heap.RemoveLinks` | stage2/common.c:336-348 | unlinking a descriptor does, too |
| `Heap.Heap.Take` | stage2/common.c:284-304 | takes a block on the descriptors as the block list says; fails exactly if a rest remains and no descriptor is free |
| `Heap.Heap.Apart` | stage2/common.c:268-353 | on every reachable heap two blocks in use never overlap, and lie in the arena |
| `Heap.Heap.Malloc` | stage2/common.c:268-308 | on every reachable heap takes the first fit; the block returned lies in the arena, is in use with the rounded size, at least 16 bytes more than asked for exactly if the sum does not wrap around, and every other block in use stays; fails exactly without a fit, or without a descriptor for the rest, and then changes nothing |
| `Heap.Heap.JoinAhead` | stage2/common.c:343-348 | joins a block with the next one exactly if that is free |
| `Heap.Heap.Release` | stage2/common.c:334-349 | the linked descriptors change as freeing the block says |
| `Heap.Heap.Free` | stage2/common.c:323-353 | on every reachable heap frees the first block that begins at the pointer, or changes nothing; a block in use with that base is released, and no other, if and only if the first block found is in use and as long |
| `Heap.ExactFitLeaks` | stage2/common.c:278-299 | a run of five calls from the initial heap of 16 to 4096, an exact fit among them, after which a block of 32 bytes stays in use although it is freed |
| `Heap.WrappedRequestLeaks` | stage2/common.c:272-304 | a run of three calls, the first with a size that wraps around, after which freeing a block of 32 bytes releases an empty one instead |
| `MemoryMap.CoversExactly` | stage2/common.c:158-163 | a range of a kind other than 1, or one that wraps around 64 bits, counts for nothing, any other for exactly what it names |
| `MemoryMap.ExtentUnique` | stage2/common.c:143-145 | the size available does not depend on the order of the ranges |
| `MemoryMap.MmapAvailAt` | stage2/common.c:149-181 | ends, and stops at the least address from the bottom on that no available range covers, or at 4G if it began below and that is covered |
| `Numbers.DivideByTen` | stage2/char_io.c:165-190 | the division in 32-bit halves gives quotient and remainder of the 64-bit number |
| `Numbers.WriteBackwards` | stage2/char_io.c:143-192 | writes the digits in reverse and touches nothing else of the buffer |
| `Numbers.ReverseInPlace` | stage2/char_io.c:194-205 | turns the written part round in place |
| `Numbers.ConvertToAscii` | stage2/char_io.c:123-208 | the buffer begins with the signed, unsigned or hexadecimal text of the number, at most 20 bytes, and is unchanged behind it |
| `Numbers.TwentyDigits` | stage2/char_io.c:123-208 | no 64-bit number has more than 20 digits, none up to 2^63 more than 19 |
| `Numbers.DigitsBack` | stage2/char_io.c:123-208 | the value of the digits of a number is the number |
| `Numbers.NoLeadingZero` | stage2/char_io.c:123-208 | no zeros are printed in front |
| `Numbers.MinusPrinted` | stage2/char_io.c:155-162 | only d prints a minus, and only for numbers with bit 63 set |
| `Numbers.DigitCase` | stage2/char_io.c:149-155 | hexadecimal letters are small for x and capital for X |
| `Numbers.HexDigit` | stage2/char_io.c:1496-1506 | the wrapping byte arithmetic accepts exactly the 22 digit characters, with their values |
| `Numbers.ReadHex` | stage2/char_io.c:1489-1528 | fails exactly if the digits exceed 64 bits |
| `Numbers.ReadDecimal` | stage2/char_io.c:1532-1571 | fails exactly if the digits exceed 2^63 - 1, or 2^63 behind a sign |
| `Numbers.ShiftLeft` | stage2/char_io.c:1590-1595 | shifting up and back loses bits exactly if the product does not fit 64 bits |
| `Numbers.ShiftRight` | stage2/char_io.c:1590-1595 | shifting down and back loses bits exactly if the unit does not divide the number |
| `Numbers.Scale` | stage2/char_io.c:1578-1620 | a suffix multiplies, or divides without remainder, or the number is refused |
| `Numbers.SafeParseMaxintWithSuffix` | stage2/char_io.c:1452-1623 | reads sign, base, digits and suffix of any text, with exactly the overflows and errors of unbounded arithmetic |
| `Numbers.SignedRoundTrip` | stage2/char_io.c:1452-1623 | every signed 64-bit number is read back from its printed text, whatever inert text follows |
| `Numbers.HexRoundTrip` | stage2/char_io.c:1452-1623 | every 64-bit number is read back from 0x and its printed hexadecimal text, in both cases of letters |
| `Numbers.UnsignedRoundTrip` | stage2/char_io.c:1452-1623 | an unsigned decimal text is read back exactly if bit 63 is clear; otherwise it is an overflow |
| `Numbers.SuffixExact` | stage2/char_io.c:1578-1601 | digits with a suffix are that many units exactly if the product stays below 2^63; otherwise it is an overflow |
| `Numbers.SuffixLetters` | stage2/char_io.c:1578-1586 | the suffixes are k, m, g and t, small or capital |
| `Numbers.SuffixBytes` | stage2/char_io.c:1578-1601 | they stand for powers of 1024 |
| `Numbers.SuffixDown` | stage2/char_io.c:1578-1601 | counted in larger units a number is accepted exactly if it is a whole number of them |
| `Numbers.SignExact` | stage2/char_io.c:1472-1620 | `-` negates modulo 2^64, `!` tells zero, `~` inverts the bits; decimal digits behind a sign are accepted exactly up to 2^63 |

## Left out

- LzmaRead.LzmaReader.Read: streams without data errors only, since the program ignores what the decoder reports and goes on with a state for which nothing is promised; allocating the buffers and printing progress are left out. The length that the header announces only bounds what callers ask for.
- LzmaDecoder.LzmaDec.DecodeToDic: after an error nothing is promised about the decoder but the sizes of its tables and the bytes produced; the caller has to start again.
- Streams that are broken in a way the decoders do not detect (a distance beyond the output in deflate or LZ4, an LZ4 block longer than announced, deflate bits that are no code of any symbol where some symbol has no code either, input that ends early): the outcome is `Unknown` and the readers require another one.
- Deflate.Symbol: asks for 16 more bits at every symbol, although a decoder may get by with fewer at the end of the input; a gzip file ends with eight bytes of check sum and length that provide them.
- HuftBuilder.HuftBuild: promises nothing about lookups at widths outside `Fits`, which no caller uses, nor, where some symbol has no code, about bits that start with no symbol's code: the dummy codes are then filled in from what the list of symbols held before. Its length, offset, value and stack arrays are sequences, not static arrays; memory for tables is taken for granted.
- Gunzip.Gunzip.Read: seeking is a change of the position before a call. The gzip header, the check sums, and the clearing of the error number between calls are not part of the model.
- Lz4.Lz4Reader.Read: after a call that fails, which stops in the middle of a block, nothing is promised about the reader; the program would go on from wherever the bad block left it.
- Lz4.OpenExact: the length announced in the header only bounds what callers ask for; frames without it are refused, as in the program. Allocation of the two buffers, the content check sum and the block check sums (skipped, not compared) are left out. Compressed blocks must fit the 8 MB input buffer.
- Lz4.DecodeMatch: the check that a match fits the dictionary is kept but out of reach, blocks of more than their announced size being excluded.
- ReiserJournal: the number of blocks in the journal is a power of two, as mounting checks, and not zero; reads succeed; the fields of list blocks beyond the 4K of a block are not modelled. `J.Sound` (a transaction fits its two list blocks and logs no block twice) is required of the complete transactions: with a block listed twice the program would take the first entry, while replaying would end with the last.
- ReiserTree: reading a file's bytes through direct and indirect items, and directories. A block is read whole and parsed by a function that is a parameter.
- TrackCache: BIOS calls, int13, geometry probing, the disk_read_func hooks, and running out of memory at the target of a copy. Reads and writes of the drive itself succeed within the disk, except for sectors that look like the mark of a failed read; the retry path is modelled.
- TrackCache.DiskCache.RawWrite: starts, like a write through `RawRead`, from a cache that is right; of a read from a wrong one, `RawRead` says what it gives within the cached track only.
- BlockList.Cursor.Read: `devread` is taken to read the partition without error, and files end within the list.
- Ext2Map.BlockMap.Map: shifts and masks are written as divisions, the number of pointers in a block being a power of two; files with missing indirect blocks, and blocks beyond the triple indirect range.
- Ext4Map: the sum of an extent's start and length is taken not to wrap around 32 bits, no file having 2^32 blocks; unwritten extents, which the program does not tell from others; the walk keeps nodes as values instead of one data block buffer, so the reuse of that buffer is not captured.
- Fat: sectors of other sizes than 512 bytes, the root directory of FAT12 and FAT16, contiguous exFAT files, the truncation of the cached position to 32 bits on very large exFAT volumes, and directories.
- Heap: the end of the arena is 2^32 where the program writes 0 for it; zeroing the memory and the initial set-up from the memory map; a search that would run over the end of the descriptor array into an unused word behind it.
- MemoryMap: descriptors are a list of ranges; their own size fields, by which the program steps through them, are not modelled.
- Numbers: format strings, padding and width of printing; text is bytes and the parser reads a zero behind them.
- Directory walking, name completion, the console, the command line, PXE, CD emulation and kernel loading, which are input and output; NTFS, XFS, JFS, FFS, UFS2 and VHD images, whose run lists and block caches repeat arguments made here; CRC tables and string helpers, which are easy members.
