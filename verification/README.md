# Verified models of the VSTa C library and make

This project models the algorithmic parts of the VSTa C library and the dependency engine of its
`make`, and proves what they are for. `dafny verify dfyconfig.toml` checks everything.

Code that changes state is modelled as Dafny methods over arrays, fields and linked nodes, with the
same branches and loops; each such method is proved against a specification function or predicate,
and the properties are proved about that specification, for all inputs and all runs.

| files | what they model |
|---|---|
| `SplayTree`, `BitPacking`, `PioBuffer`, `CodeStream`, `Compressor`, `CompressedFile` | the adaptive splay-tree compressor: trees rewired in place, bits packed into bytes, whole files |
| `QSort` | the hybrid quicksort with its moving pivot and its unguarded insertion sort |
| `Malloc` | the power-of-two allocator: bucket chains written into free memory, page tags, chunks, large blocks |
| `BlockIo`, `Hash`, `Descriptors` | unaligned transfers by block read-modify-write, failing and short requests included; the descriptor table split between an array and a hash, with shared, counted ports |
| `ResourceMap` | the coalescing map of free extents, edited in place |
| `Random` | the additive-feedback generator: two pointers into a circular table, and states that callers switch between |
| `DotDot` | removal of ".", ".." and empty elements from a path in place |
| `Words`, `ByteArea`, `MountTable`, `FdlState`, `FdlRestore`, `ExecHandoff` | what `execv` packs for the next program, and what that program unpacks |
| `DependencyGraph`, `Make` | the search for circular dependencies and the recursive making of targets |
| `Options`, `Sets`, `PowersOfTwo` | small shared helpers |

## What the proofs found

Where the code does not do what its comments say or what one might expect, the model follows the code
and a member states exactly when the expectation holds.

- A buffer created from bytes has its last index left at 0, so only its first byte can be read
  (`PioBuffer.Buffer.CreateFrom`). A buffer counts one byte even when nothing was written to it, and
  a compressed file for a one-byte message is rejected by the reader, because the size field holds the
  index of the last byte and 0 is refused (`CodeStream.FileRoundTrip`).
- Reading a long past the end is reported exactly if the buffer's last index is at least 2: below
  that, the unsigned subtraction wraps (`PioBuffer.Buffer.ULong`).
- Decompressing runs past the end of an input without an end mark, over whatever an earlier run left
  in the bit buffer and then zeros. If it ends, its output does not depend on how many bytes are made
  up, and the error flag is raised exactly if more than 16 were (`Compressor.DecompressBuffer`,
  `CodeStream.ProducedAnyway`). The reader of compressed files ignores the flag
  (`CompressedFile.ReadCompressed`).
- `malloc` of more than 268369920 bytes hands out a block whose page count does not fit the 16-bit
  page tag; the allocator is then in an invalid state. Validity after `malloc` and `realloc` is
  equivalent to the size being at most that; the old contents are carried over all the same
  (`Malloc.Allocator.Malloc`, `Malloc.Allocator.Realloc`, `Malloc.TagLimit`).
- Unaligned transfers count in an `int` and compare it with an unsigned request. Reading beyond the
  end of a device is right if and only if a block begins at the position; from any other position a
  read that does not fail returns the full count, or overruns the working buffer if the request does
  not fit it. A write counts each block before writing it, so when a block write fails inside the
  device the count returned is larger than what was written (`BlockIo.Port.BalignIo`,
  `BlockIo.RefusedCounts`).
- The comment on `rmap_init` counts the header among the slots, but the fullness test lets that many
  extents be stored besides it: a run of frees exists that fills them all, so the array needs one more
  element (`ResourceMap.SlotsFill`).
- The comment on `setstate` allows the current state as its argument. The generator is unmoved by that
  exactly when the word in the array still records the current position
  (`Random.Generator.SetState`).
- `dup2` of a descriptor onto itself leaves a valid table exactly when the port has another descriptor
  (`Descriptors.FdTable.Dup2`).
- `execv` packs an empty list of arguments, but the new program then searches the first one for a
  slash before anything else is restored, and there is none. Everything is restored if and only if the
  list is not empty (`ExecHandoff.Exec`, `ExecHandoff.NoFirstArgument`).
- After `exec`, two descriptors share a port exactly when their ports had the same number, so sharing
  and reference counts survive exactly when different ports have different numbers
  (`FdlRestore.SharingKept`). File positions are zeroed, although they are saved, except for ports of
  type "null", which keep theirs (`FdlRestore.RestoreTable`). The current directory survives exactly
  when it has at most 254 characters (`ExecHandoff.CwdSurvives`).
- A made target is at least as new as its dependencies unless a dependency that was not made has a
  file dated later than the moment the target was made (`Make.NoOlder`, and `Make.LaterDependency` for
  an example). Whether that can happen can be told from the files before the run
  (`Make.EveryRunUpToDate`).

## Model

| member | source | states |
|---|---|---|
| SplayTree.CodesInjective | src/libc/pio.c:697-731 | no two nodes of a valid tree have the same path from the root |
| SplayTree.PrefixIsInternal | src/libc/pio.c:788-808 | every proper prefix of a node's path leads to an internal node |
| SplayTree.PrefixFree | src/libc/pio.c:788-829 | a symbol's code is a prefix of another's exactly if they are the same symbol |
| SplayTree.PathFits | src/libc/pio.c:792-803 | every path is at most as long as there are internal nodes, so it fits the 257-entry stack and the walks end |
| SplayTree.DescendDecodes | src/libc/pio.c:814-829 | walking down by a leaf's code ends at that leaf with the rest of the bits untouched |
| SplayTree.DescendReachesLeaf | src/libc/pio.c:820-829 | the walk down stops only at a leaf |
| SplayTree.DescendConsumesCode | src/libc/pio.c:814-829 | whatever the bits, the walk consumes exactly the code of the leaf it reaches |
| SplayTree.LiftExchanges | src/libc/pio.c:704-729 | one step of the splay keeps the tree valid and exchanges the paths below a node with those below its uncle, and nothing else |
| SplayTree.SplayLengths | src/libc/pio.c:697-731 | splaying at a leaf shortens every path through an ancestor by half the ancestor's depth, and lengthens any path by at most one |
| SplayTree.SplayHalves | src/libc/pio.c:697-731 | a symbol whose code had length k has one of length ceil(k/2) after its splay; every other code grows by at most one |
| SplayTree.SplayCodes | src/libc/pio.c:697-731 | every code after a splay is given by the code before it and the splayed one alone |
| SplayTree.SplayedBelow | src/libc/pio.c:697-731 | the splayed symbol's code becomes every second turn of what it was, the other way |
| SplayTree.HeapValid | src/libc/pio.c:753-764 | the initial arrays are a valid tree, for any number of internal nodes, whose paths are the binary digits of the node numbers |
| BitPacking.UnpackPack | src/libc/pio.c:646-691 | unpacking packed bits of any length gives them back, followed by the zeros that fill the last byte |
| BitPacking.UnpackAppend | src/libc/pio.c:646-670 | bytes are unpacked independently of what precedes them |
| BitPacking.AppendBit | src/libc/pio.c:676-691 | appending one bit changes only the unfinished byte, or finishes it |
| BitPacking.UnpackedBit | src/libc/pio.c:646-670 | bit 8i + j of a stream is binary digit j of byte i |
| Words.LongRoundTrip | src/libc/pio.c:342-384 | the value of the four bytes written for a long is that long |
| Words.LongByte | src/libc/pio.c:342-384 | byte i of a long is v / 256^i mod 256 |
| Words.WordIs | src/libc/fdl.c:777-803 | a negative long is stored as its two's complement and comes back |
| PioBuffer.Buffer.Create | src/libc/pio.c:180-198 | a fresh buffer holds nothing written, but counts one zero byte |
| PioBuffer.Buffer.CreateFrom | src/libc/pio.c:180-198 | of a buffer created from bytes only the first can be read |
| PioBuffer.Buffer.Reset | src/libc/pio.c:220-226 | a reset buffer is rewound to its start |
| PioBuffer.Buffer.CheckSize | src/libc/pio.c:233-245 | after growing there is room for the bytes needed, the growth is the larger of 512 and that, and what was written is unchanged |
| PioBuffer.Buffer.UChar | src/libc/pio.c:252-277 | writing appends the byte; reading takes the next byte, or reports the end and leaves the value alone |
| PioBuffer.Buffer.ULong | src/libc/pio.c:342-384 | writing appends four bytes; reading takes four; when fewer remain the end is reported if and only if the last index is at least 2, because the test subtracts 2 without a sign |
| PioBuffer.Buffer.Eof | src/libc/pio.c:1022-1025 | the end is reported exactly when no byte remains |
| PioBuffer.Buffer.WriteFile | src/libc/pio.c:594-599 | a file gets every byte the buffer holds but the last |
| PioBuffer.Buffer.ReadFile | src/libc/pio.c:606-640 | a file's bytes are read back followed by one zero byte |
| CodeStream.DecodeSymbolExactly | src/libc/pio.c:814-832 | a symbol is read off a stream, leaving the rest, if and only if the stream is its code followed by that rest |
| CodeStream.DecodeEncode | src/libc/pio.c:788-891 | from any state of the 64 trees, a message is read back from its own bits whatever follows, and the reader stops exactly after the end mark |
| CodeStream.EncodeCharsAppend | src/libc/pio.c:839-852 | the bits for one more character are its code in the state the earlier characters leave |
| CodeStream.CoderAdapts | src/libc/pio.c:697-731 | after a symbol, its code of length k in its tree has length ceil(k/2) and every other code there grows by at most one; the codes in the other 63 trees are unchanged; the next tree is the one numbered by the symbol mod 64 |
| CodeStream.FirstCodes | src/libc/pio.c:737-767 | at first a symbol's code in every tree is the binary digits of s + 258 after the first one |
| CodeStream.RunInPlace | src/libc/pio.c:838-868 | n equal characters cost one bit each and at most twice the first code's length more |
| CodeStream.RunFromStart | src/libc/pio.c:838-868 | from the start, n equal characters take at most n + 24 bits |
| CodeStream.DecompressCompress | src/libc/pio.c:838-891 | every message is decompressed from its compressed bytes, whatever bytes follow them |
| CodeStream.CompressedIs | src/libc/pio.c:838-868 | compressed bytes are the message's bits, zeros up to the byte's end, and a zero byte, and no more |
| CodeStream.CompressedPrefixFree | src/libc/pio.c:838-868 | the compressed form of one message is a prefix of another's exactly if the messages are equal |
| CodeStream.DecodeExtends | src/libc/pio.c:814-891 | more bits after a stream that is decoded change nothing but what is left over |
| CodeStream.ProducedAnyway | src/libc/pio.c:646-670 | an input that is cut short has one meaning: however many bytes are made up past its end, once there are enough, the message and the bits used for it are the same |
| CodeStream.EndsWithin | src/libc/pio.c:646-670 | an input holds its end mark exactly if decompressing it ends without using a bit that is made up, and then it gives the same message |
| CodeStream.FileRoundTrip | src/libc/pio.c:897-1015 | a compressed file reads back as the message it was written for, except that a one-byte message is rejected |
| CodeStream.FileLayout | src/libc/pio.c:897-948 | the bytes of a file one by one: PZ01, the last byte's index with the least significant byte first, the compressed bytes but the last |
| Compressor.CodeTree.constructor | src/libc/pio.c:753-764 | the three arrays are filled with the initial tree |
| Compressor.CodeTree.LiftNode | src/libc/pio.c:706-729 | the array writes of one splay step are one lift of the tree |
| Compressor.CodeTree.SemiSplay | src/libc/pio.c:697-731 | the loop over the arrays is the whole splay at the symbol's leaf |
| Compressor.CodeTree.PathTo | src/libc/pio.c:792-803 | the walk to the root leaves on the stack the leaf's code in reverse, within its bounds |
| Compressor.CodeTree.Child | src/libc/pio.c:820-828 | one turn of the decoder's loop is one step of the walk down |
| Compressor.PioCompressor.constructor | src/libc/pio.c:737-767 | 64 initial trees, empty output bits, and input bits left over from the last run |
| Compressor.PioCompressor.GetBit | src/libc/pio.c:646-670 | the next bit of the input is returned; past the end the count of garbage bits grows and the error is raised beyond its limit |
| Compressor.PioCompressor.Refill | src/libc/pio.c:650-663 | an empty bit buffer takes the next byte, or counts garbage when there is none |
| Compressor.PioCompressor.NextBit | src/libc/pio.c:646-670 | the bits returned are those of the input, then those left in the bit buffer, then zeros, without end |
| Compressor.PioCompressor.PutBit | src/libc/pio.c:676-691 | the bit is sent after those sent so far |
| Compressor.PioCompressor.Flush | src/libc/pio.c:853-864 | what was sent ends up in the buffer as its packed bytes, the last one padded, and a zero byte |
| Compressor.PioCompressor.SplaySymbol | src/libc/pio.c:697-731 | the current tree is splayed and the symbol chooses the next, as the abstract coder does |
| Compressor.PioCompressor.CompressSymbol | src/libc/pio.c:788-808 | the symbol's code is sent and the trees go to the coder's next state |
| Compressor.PioCompressor.PutPath | src/libc/pio.c:804-807 | popping the stack sends exactly the code |
| Compressor.PioCompressor.DecompressSymbol | src/libc/pio.c:814-832 | the symbol read is the one the abstract decoder reads off the input and the bits made up past its end, no bit more is consumed, and the trees follow the encoder's |
| Compressor.PioCompressor.ReadSymbol | src/libc/pio.c:815-829 | the loop down the tree reaches the abstract decoder's leaf, also when it runs past the end of the input |
| Compressor.PioCompressor.CompressAll | src/libc/pio.c:838-868 | all remaining input is read, and its packed code with the end mark and a zero byte is appended |
| Compressor.PioCompressor.DecompressAll | src/libc/pio.c:874-891 | the message up to the end mark, wherever that is, is appended to the output, and the reader stops right after the mark |
| Compressor.CompressBuffer | src/libc/pio.c:838-868 | the output grows by the compressed form of the input |
| Compressor.DecompressBuffer | src/libc/pio.c:874-891 | on every input on which it ends: the output grows by the message read, the bytes made up are exactly those its last bits needed, and the error is raised if and only if they are more than 16 |
| CompressedFile.WriteHeader | src/libc/pio.c:909-921 | magic number and size are the first eight bytes |
| CompressedFile.WriteCompressed | src/libc/pio.c:897-948 | the file is exactly the file for what the buffer holds, and the buffer is left as it was |
| CompressedFile.ReadHeader | src/libc/pio.c:978-996 | for files of any length, a header is accepted if and only if there are eight bytes, the magic number is right and the size is not zero |
| CompressedFile.ReadCompressed | src/libc/pio.c:954-1015 | a buffer is returned if and only if the header is accepted, and it then reads as what decompressing the rest produces, also past the end of the file |
| CompressedFile.MessageIsRead | src/libc/pio.c:954-1015 | a file that holds a message is read as that message, whatever an earlier run left in the bit buffer |
| QSort.Swap | src/libc/qsort.c:179-187 | the exchange permutes the range being sorted and touches nothing outside |
| QSort.ChoosePivot | src/libc/qsort.c:131-148 | for at least 6 elements the pivot is the median of first, middle and last |
| QSort.Scan | src/libc/qsort.c:153-158 | the two scans stop at the pivot or at an element on the wrong side, and what they passed is on the right side |
| QSort.Exchange | src/libc/qsort.c:159-187 | each of the three exchanges keeps what was passed on its side of the pivot, follows the pivot if that is what moved, and brings the scans closer together |
| QSort.Partition | src/libc/qsort.c:152-187 | a pass permutes the range so that everything left of the pivot is at most it and everything right at least it |
| QSort.Round | src/libc/qsort.c:130-207 | one round settles the pivot and recurses into the smaller part, leaving a strictly smaller range |
| QSort.Qst | src/libc/qsort.c:112-208 | ends with a permutation that consists of consecutive segments of at most 3 elements, none greater than any in a later segment; the recursion depth d satisfies 2^d <= n |
| QSort.NearlySortedJoin | src/libc/qsort.c:188-207 | parts that consist of such segments, in order against each other, join to a part that does |
| QSort.SmallestFirst | src/libc/qsort.c:58-74 | the least element of those looked at is moved to the front |
| QSort.FindPlace | src/libc/qsort.c:82-84 | the backward scan without a bound never passes the base and finds where the element belongs |
| QSort.Insert | src/libc/qsort.c:82-93 | one insertion extends the sorted prefix by a permutation |
| QSort.InsertionSort | src/libc/qsort.c:75-93 | given the least element in front, the array ends sorted |
| QSort.LeastIsEarly | src/libc/qsort.c:52-63 | after the partitioning a least element of the whole array is among the first 4, so the sentinel is a global minimum |
| QSort.Sort | src/libc/qsort.c:35-94 | for every array and every total preorder, a sorted permutation |
| Malloc.Allocator.constructor | src/libc/malloc.c:63-70 | an allocator with nothing allocated satisfies the invariant |
| Malloc.Allocator.AllocCore | src/libc/malloc.c:108-135 | a new chunk of mapped pages, apart from all others, is known and unused |
| Malloc.Allocator.AllocPages | src/libc/malloc.c:142-183 | the pages come off the pool if it has enough, and otherwise off a newly mapped run of the current size, which then doubles up to 256; they belong to no block |
| Malloc.Allocator.FindChunk | src/libc/malloc.c:190-203 | the chunk found is the one that holds the address |
| Malloc.Allocator.SetSize | src/libc/malloc.c:210-226 | the page's tag is the size, truncated to 16 bits; no block's tag changes |
| Malloc.Allocator.GetSize | src/libc/malloc.c:233-241 | the tag of a live block gives its size: a power of two up to 32K, or whole pages |
| Malloc.Allocator.Carve | src/libc/malloc.c:325-336 | one freshly cut block joins its bucket's chain |
| Malloc.Allocator.Parcel | src/libc/malloc.c:322-336 | the pages in hand are cut into blocks of the bucket's size, which are its chain afterwards, the last one first; no other block is new and nothing is mapped |
| Malloc.Allocator.Refill | src/libc/malloc.c:308-342 | an empty bucket gets blocks without changing any block that exists |
| Malloc.Allocator.BucketFor | src/libc/malloc.c:280-306 | the bucket is the least power of two that is at least 16 and the request |
| Malloc.Allocator.MallocSmall | src/libc/malloc.c:276-354 | the first block of the bucket's chain, and nothing else changes; from an empty bucket, the last of the blocks cut off pages of their own |
| Malloc.Allocator.MallocLarge | src/libc/malloc.c:262-274 | a chunk of its own for whole pages, with exactly its pages and the one before them newly mapped; the invariant holds afterwards exactly if the count fits its tag |
| Malloc.Allocator.Malloc | src/libc/malloc.c:247-354 | a new live block of the right size, other blocks' contents unchanged; a block on the bucket's chain is used again and nothing mapped, pages come off the pool before memory is mapped; valid afterwards if and only if the page count fits the tag |
| Malloc.OneBucket | src/libc/malloc.c:280-306 | each request up to 32K has one bucket |
| Malloc.Allocator.TakeFree | src/libc/malloc.c:344-354 | the first block of the chain becomes live and the rest is the chain |
| Malloc.Allocator.Reuse | src/libc/malloc.c:344-397 | a block that is freed is the one the next request for its bucket gets, and no memory is taken for it |
| Malloc.Allocator.Recorded | src/libc/malloc.c:210-241 | cells in hand become a block that leaves the allocator valid if and only if the tag of their page gives their size |
| Malloc.TagLimit | src/libc/malloc.c:210-226 | the page count fits its tag exactly for sizes up to 268369920 |
| Malloc.TruncatedTag | src/libc/malloc.c:210-226 | with a truncated tag the block's size is recorded wrongly |
| Malloc.PushFree | src/libc/malloc.c:389-396 | linking a block in front keeps every chain acyclic, of one size and free |
| Malloc.PopFree | src/libc/malloc.c:344-348 | unlinking the first block keeps every chain, and the block was free and of the bucket's size |
| Malloc.Allocator.FreeSmall | src/libc/malloc.c:386-397 | the block is the first of its bucket's chain, linked to the one that was; the other chains are as before and nothing is unmapped |
| Malloc.Allocator.FreeCore | src/libc/malloc.c:80-101 | the block's chunk is forgotten and exactly its pages and its description are unmapped; other chunks and blocks stay |
| Malloc.Allocator.FindHeader | src/libc/malloc.c:84-95 | the chunk whose memory is freed is found |
| Malloc.Allocator.Free | src/libc/malloc.c:361-397 | a bucket's block stays a block and goes on the front of that bucket's chain; a large one leaves the blocks, its chunk is no longer listed and exactly its cells and its description's are unmapped; every other block keeps its place, size and contents |
| Malloc.Allocator.Replace | src/libc/malloc.c:460-461 | the copy and the free disturb nothing else even when the new block's tag is wrong |
| Malloc.Allocator.Move | src/libc/malloc.c:452-462 | the contents are carried to a new block, off the bucket's chain if it has one, and the old one is on its chain or unmapped; the allocator is valid afterwards if and only if the new page count fits its tag |
| Malloc.Allocator.Realloc | src/libc/malloc.c:406-463 | for every new size: a live block of at least that size with the first min(old, new) bytes unchanged, other live blocks untouched; it is the same block, and nothing has changed, exactly if the size fits and does not halve a large block; otherwise the old one is given back; valid afterwards if and only if the new page count fits the tag |
| Malloc.Allocator.Store | src/libc/malloc.c:356-397 | a program writing inside its block keeps the allocator valid and changes no other block |
| Malloc.Allocator.Separation | src/libc/malloc.c:80-241 | live blocks are disjoint from each other, from chunk descriptions and from all chained blocks |
| BlockIo.ClearLowAligns | src/libc/fdl.c:127-132 | clearing the low bits gives the block that holds the position |
| BlockIo.MemCpy | src/libc/fdl.c:162-167 | the bytes copied are those of the source |
| BlockIo.Port.ReadBlock | src/libc/fdl.c:135-167 | one block, read whole, in part or not at all as the server's patience and the device's end say, extends the part of the buffer that is read; a count still below zero becomes the whole request, and the copy overruns the working buffer exactly if it does not fit |
| BlockIo.Port.MergeBlock | src/libc/fdl.c:169-215 | the block to write is the old one with the caller's bytes in their place, the count goes up by what could be read, and one request is made exactly if part of the block is not asked for |
| BlockIo.Port.WriteBlock | src/libc/fdl.c:168-230 | one block extends the part of the device that is written, or the device is as it was; which of the two, and where the count goes, is decided by the server's patience and the device's end |
| BlockIo.BlockFits | src/libc/fdl.c:127-132 | on a device of whole blocks, a block that begins inside ends inside |
| BlockIo.ReadNext | src/libc/fdl.c:134-167 | after each round of reading, whether another follows and what has been delivered if none does |
| BlockIo.WriteStopsOnce | src/libc/fdl.c:168-233 | the request, the device and which request fails leave one place where a write stops |
| BlockIo.RefusedCounts | src/libc/fdl.c:189-230 | on a device of whole blocks that has all that is asked for, a refused block write is counted as written |
| BlockIo.Port.Rounds | src/libc/fdl.c:134-232 | what the loop has read or written, and what it counts, when it stops at the request's end, the device's end or the request that fails |
| BlockIo.Port.BalignIo | src/libc/fdl.c:101-250 | for every block size 2^k, device length, position and number of the request that fails: the exact count and bytes read, in blocks up to that request; the blocks written before it, and the exact count returned, which includes a block whose write is refused; nothing else changes, and the position advances by what is returned; the overrun happens exactly past the end at an unaligned position when the request does not fit and the first read is answered |
| Hash.FindWithout | src/libc/hash.c:67-95 | with unique keys, deleting a key makes it and only it unfindable |
| Hash.UniqueWithout | src/libc/hash.c:67-95 | deleting keeps keys unique |
| Hash.XorDigit | src/libc/hash.c:12-16 | the exclusive or of two numbers, digit by digit |
| Hash.HashIdxDigit | src/libc/hash.c:12-16 | with 32 chains, digit k of a key's chain tells whether digits k and k + 2 of the key differ |
| Hash.Table.constructor | src/libc/hash.c:23-33 | an empty table |
| Hash.Table.Insert | src/libc/hash.c:41-59 | the pair is put in front of its chain |
| Hash.Table.Lookup | src/libc/hash.c:121-136 | the most recent value for the key, if any |
| Hash.Table.Delete | src/libc/hash.c:67-95 | the most recent pair of the key goes; 1 is returned exactly if there is none |
| Hash.Table.Unlink | src/libc/hash.c:75-92 | the links around one node are patched and all chains stay linked |
| Hash.Table.Size | src/libc/hash.c:143-154 | the number of pairs in all chains |
| Hash.Table.Entries | src/libc/hash.c:161-173 | every pair is visited once, chain by chain |
| Descriptors.ListsInsert | src/libc/hash.c:41-59 | inserting an absent key makes it findable and changes no other |
| Descriptors.ListsDelete | src/libc/hash.c:67-95 | deleting a key makes it unfindable and changes no other |
| Descriptors.UnusedExists | src/libc/fdl.c:444-476 | among n descriptors some one is not in a set of fewer than n |
| Descriptors.FdTable.constructor | src/libc/fdl.c:39-47 | an empty table satisfies the invariant |
| Descriptors.FdTable.Lookup | src/libc/fdl.c:57-67 | array and hash together are one map from descriptors to ports |
| Descriptors.FdTable.SetFd | src/libc/fdl.c:420-437 | the map gains one descriptor |
| Descriptors.FdTable.ClearFd | src/libc/fdl.c:654-661 | the map loses one descriptor |
| Descriptors.FdTable.AllocFd | src/libc/fdl.c:443-476 | the lowest unused descriptor of the array, or if there is none the first unused one from the next high one on, beginning again after the last; the search goes on behind it |
| Descriptors.FdTable.SkipBusy | src/libc/fdl.c:461-472 | the search above the array ends, at the nearest unused descriptor |
| Descriptors.FdTable.DoOpen | src/libc/fdl.c:373-414 | the position starts at zero, except that a port of type null is left before that |
| Descriptors.FdTable.FdAlloc | src/libc/fdl.c:485-511 | a new port with one reference under the first unused descriptor, at position zero unless its type is null |
| Descriptors.FdTable.Dup | src/libc/fdl.c:517-543 | the first unused descriptor shares the port, or -1 for one that is not open; counts stay right and positions as they are |
| Descriptors.FdTable.Close | src/libc/fdl.c:641-682 | the descriptor goes, its port is closed exactly with its last one, and the result is then 0 for a port of type null and the server's answer otherwise |
| Descriptors.FdTable.Release | src/libc/fdl.c:663-682 | one reference less, and closed with the close routine's result if none is left |
| Descriptors.FdTable.Dup2 | src/libc/fdl.c:549-581 | newfd names oldfd's port; the table is valid afterwards if and only if the two differ or the port has another descriptor |
| ResourceMap.CanonicalUnique | src/libc/rmap.c:37-157 | a set of free units has only one canonical map |
| ResourceMap.AllocLowest | src/libc/rmap.c:37-71 | allocation fails if and only if no contiguous free run of that size exists, and otherwise returns the lowest |
| ResourceMap.AllocTakes | src/libc/rmap.c:52-69 | exactly the units returned stop being free, and the map stays canonical |
| ResourceMap.FreeAdds | src/libc/rmap.c:80-157 | exactly the units freed become free, coalesced on either side or both; they are lost exactly when the table is full and they touch no free unit |
| ResourceMap.RunConserves | src/libc/rmap.c:37-157 | over every run, the map stays canonical and free + allocated + lost units are constant |
| ResourceMap.OnePerPiece | src/libc/rmap.c:80-157 | the table is full exactly when there are as many separate pieces of free units as slots |
| ResourceMap.RunKeepsUnits | src/libc/rmap.c:37-157 | over every run, the map holds exactly the free units of a plain set from which each allocation takes the lowest run that fits and to which each free adds its units, unless there are as many pieces as slots and it touches none |
| ResourceMap.SlotsFill | src/libc/rmap.c:21-29 | a run of frees fills as many extents as the size given, so one element more than that is needed |
| ResourceMap.Rmap.constructor | src/libc/rmap.c:25-29 | an empty map |
| ResourceMap.Rmap.FindFit | src/libc/rmap.c:44-54 | the first extent that is large enough |
| ResourceMap.Rmap.Remove | src/libc/rmap.c:56-69 | an emptied extent is closed up by shifting those after it |
| ResourceMap.Rmap.Alloc | src/libc/rmap.c:37-71 | the array is edited to the map after allocation |
| ResourceMap.Rmap.FindPlace | src/libc/rmap.c:87-127 | the loop passes exactly the extents that lie before the freed units |
| ResourceMap.Rmap.ExtendAt | src/libc/rmap.c:93-113 | the extent before grows, and takes in the next one if it now touches it |
| ResourceMap.Rmap.InsertAt | src/libc/rmap.c:139-156 | a new extent is shifted in |
| ResourceMap.Rmap.Free | src/libc/rmap.c:80-157 | the array is edited to the map after freeing, and the loss is counted |
| Random.WindowIsStream | src/libc/random.c:340-360 | after n steps the window holds the next values of one stream |
| Random.Recurrence | src/libc/random.c:340-360 | the stream satisfies x[n] = x[n-deg] + x[n-sep] mod 2^32 for all four trinomials |
| Random.OutputsAreStream | src/libc/random.c:349-350 | the numbers returned are the stream's values halved |
| Random.Trinomials | src/libc/random.c:66-105 | the four recurrences, with their degrees and separations as numbers |
| Random.KindForIs | src/libc/random.c:232-262 | the type chosen is the largest whose state fits the bytes given |
| Random.SeededTable | src/libc/random.c:192-196 | the table begins with the seed and each word comes from the one before |
| Random.LcgIsCongruential | src/libc/random.c:340-345 | the numbers of the congruential generator are the words of that table without their highest bit |
| Random.SeededStream | src/libc/random.c:181-201 | a seeded generator is 10 * degree steps into the stream that begins with its table |
| Random.WholeRounds | src/libc/random.c:108-117 | after a whole number of rounds the rear pointer is back at the start |
| Random.AddWindow | src/libc/random.c:349-357 | one addition in the circular table moves the window on by one, and the pointers never meet |
| Random.Generator.constructor | src/libc/random.c:129-164 | a state whose first word records type and position stands for that generator |
| Random.Generator.Next | src/libc/random.c:340-360 | one call is one step of the generator |
| Random.Generator.Add | src/libc/random.c:345-358 | the additive step in place is the step of the recurrence |
| Random.Generator.MovePointers | src/libc/random.c:351-357 | each pointer wraps at the end on its own, and never both in one call |
| Random.Generator.Seed | src/libc/random.c:181-201 | the generator is the one grown from the seed and advanced 10 * degree steps |
| Random.Generator.FillTable | src/libc/random.c:192-196 | the table is filled by the congruential rule |
| Random.Generator.Cycle | src/libc/random.c:197-199 | 10 * degree numbers are discarded |
| Random.Generator.Save | src/libc/random.c:229-231 | the array left behind stands for the current generator |
| Random.Generator.InitState | src/libc/random.c:222-272 | at least 8 bytes are needed; the new state is seeded, and a different old one is saved as it was |
| Random.Generator.SetState | src/libc/random.c:289-321 | the generator saved in the array is resumed; on the current array, exactly if its first word records the current position |
| Random.Generator.DoAll | src/libc/random.c:222-360 | any run of random, setstate and initstate over any set of arrays: the numbers returned and the generator of every saved array are those of separate streams |
| Random.OwnStream | src/libc/random.c:222-360 | however a run switches, the numbers drawn from one state are the first of its own stream, without a gap |
| DotDot.ElementsOfSlashed | src/libc/open.c:127-140 | a path put together from elements has those elements |
| DotDot.SlashedElements | src/libc/open.c:62-70 | every path is the join of its elements |
| DotDot.FoldPlain | src/libc/open.c:71-111 | plain elements are all kept |
| DotDot.UpUndoesDown | src/libc/open.c:106-111 | a name followed by ".." is as nothing, wherever it stands |
| DotDot.DotsVanish | src/libc/open.c:72-103 | empty elements and dots are as nothing, and at the root so is .. |
| DotDot.UpFromRoot | src/libc/open.c:95-103 | a leading /.. changes nothing |
| DotDot.FoldSurvivors | src/libc/open.c:71-111 | the stack loses as many elements as the rest of the path leads up, and gains those that stay |
| DotDot.NormalIs | src/libc/open.c:52-152 | a path is normalised to the elements that are plain and that no later .. takes off, in their order |
| DotDot.NormalIsClean | src/libc/open.c:52-152 | a normalised path has no ".", ".." or empty element and only elements of the original; normalising is idempotent |
| DotDot.NormalOfPlain | src/libc/open.c:113-122 | a path with only plain elements is unchanged |
| DotDot.StrChr | src/libc/open.c:62-70 | the next slash or the end |
| DotDot.MapElements | src/libc/open.c:62-70 | the vector locates every element, and exactly the slashes became terminators |
| DotDot.FoldElements | src/libc/open.c:72-111 | the loop over the vector computes the stack fold, and reports whether anything was removed |
| DotDot.RestoreSlashes | src/libc/open.c:113-122 | putting the slashes back restores the path |
| DotDot.Unread | src/libc/open.c:127-143 | elements still to be read are not touched by what is written |
| DotDot.CopyLeft | src/libc/open.c:136-141 | a forward byte copy to the left moves the bytes intact |
| DotDot.Rebuild | src/libc/open.c:127-143 | the leftward copying writes the join of the remaining elements within the old length |
| DotDot.DotDot | src/libc/open.c:52-152 | the buffer ends up holding the normal form of the path, and no byte beyond the old string changes |
| ByteArea.WroteBoth | src/libc/mach/exec.c:105-131 | writing two parts in sequence writes their concatenation and nothing else |
| ByteArea.HoldsParts | src/libc/start.c:57-110 | a concatenation is read as its parts, each beginning where the one before ends |
| ByteArea.PutWord | src/libc/mach/exec.c:105-106 | four bytes are written |
| ByteArea.GetWord | src/libc/start.c:60-61 | the word written is read |
| ByteArea.PutString | src/libc/mach/exec.c:110-112 | a string and its terminator are written |
| ByteArea.GetString | src/libc/start.c:72-78 | the string written is read, up to its terminator |
| MountTable.MountTable.MountPort | src/libc/mount.c:30-107 | the port is tried first at that point, every other point is as before, names stay unique and in their order, and a new one comes last |
| MountTable.MountTable.Size | src/libc/mount.c:222-247 | the size is the number of bytes saved |
| MountTable.MountTable.Save | src/libc/mount.c:254-302 | exactly the table's bytes are written |
| MountTable.SaveSlot | src/libc/mount.c:272-300 | name, count and ports of one slot, the count filled in last |
| MountTable.SlotLayout | src/libc/mount.c:272-300 | the bytes of a slot: its name, a zero byte, the number of its ports and each port in a word |
| MountTable.BackPatched | src/libc/mount.c:281-300 | filling the gap for the count gives what writing in order would have |
| MountTable.MountTable.Restore | src/libc/mount.c:309-383 | the table read is the one saved, names and entries in order, and the reader stops where its bytes end |
| FdlState.FdlSize | src/libc/fdl.c:810-827 | the size is 4 + 12 bytes a descriptor |
| FdlState.HighEntries | src/libc/fdl.c:800-802 | the hash holds the descriptors from 32 up, each once |
| FdlState.FdlSave | src/libc/fdl.c:777-803 | one record for each open descriptor with its port's number and position, and nothing else is written |
| FdlState.RecordLayout | src/libc/fdl.c:777-803 | the words of the saved table: its size, and descriptor, port number and position of record i at 4 + 12 * i |
| FdlRestore.SharingByNumber | src/libc/fdl.c:690-751 | the new table has the old descriptors, and two share a port if and only if their old ports had the same number |
| FdlRestore.SharingKept | src/libc/fdl.c:733-743 | sharing is as before if and only if no two ports had the same number, and then each port has the same descriptors |
| FdlRestore.SavedPos | src/libc/fdl.c:720-731 | the record that a port is opened from holds the position its port had, if port numbers are distinct |
| FdlRestore.Marked | src/libc/fdl.c:738-742 | marking one record leaves the others readable |
| FdlRestore.ShareRest | src/libc/fdl.c:733-743 | every later record of the number joins the port, once |
| FdlRestore.RestoreTable | src/libc/fdl.c:690-751 | the empty table becomes the saved one with right reference counts; positions are zero, except that ports of type null have the one of the first record of their number; the reader stops where its bytes end |
| ExecHandoff.ArgsSize | src/libc/mach/exec.c:78-81 | the size is the number of bytes packed |
| ExecHandoff.PackArgs | src/libc/mach/exec.c:105-113 | count and arguments are packed |
| ExecHandoff.UnpackArgs | src/libc/start.c:57-80 | the arguments unpacked are those packed |
| ExecHandoff.NoFirstArgument | src/libc/start.c:82-95 | the vector has no first argument exactly if there are no arguments, as for the empty list |
| ExecHandoff.FindCommand | src/libc/start.c:87-95 | the command's name is what follows the last slash of the first argument, and the look-up fails exactly if there is none |
| ExecHandoff.CwdSurvives | src/libc/open.c:668-705 | the current directory is restored if and only if it has at most 254 characters |
| ExecHandoff.CwdSave | src/libc/open.c:682-687 | a one-byte count, truncated, and the string |
| ExecHandoff.CwdRestore | src/libc/open.c:693-705 | as many bytes as the count says are taken |
| ExecHandoff.Pack | src/libc/mach/exec.c:78-131 | the area has exactly the sizes' sum of bytes and holds the four parts one after the other |
| ExecHandoff.HandoffLayout | src/libc/mach/exec.c:105-131 | where the four parts lie in the area and how each begins |
| ExecHandoff.ArgumentAt | src/libc/mach/exec.c:107-113 | where each argument lies |
| ExecHandoff.Unpack | src/libc/start.c:57-115 | without arguments it fails before anything is restored; otherwise each reader starts where the last ended, and what is unmapped is the whole area exactly if the directory has at most 254 characters |
| ExecHandoff.Exec | src/libc/mach/exec.c:78-136 | arguments, descriptors, sharing, reference counts, positions, mounts and directory in the new program against the old one: all are restored if and only if there are arguments, none if there are none |
| DependencyGraph.AcyclicMeansNoCircle | src/bin.src/make/check.c:76-91 | no path meets a name twice exactly if there is no circle |
| DependencyGraph.DistinctIsShort | src/bin.src/make/check.c:56-73 | a path without repetition is no longer than there are names, so the search ends |
| DependencyGraph.Check | src/bin.src/make/check.c:56-73 | succeeds if and only if every path from the name is free of repetitions and of marked names, and clears its marks |
| DependencyGraph.Circh | src/bin.src/make/check.c:84-91 | succeeds if and only if the dependency graph has no circle |
| Make.LatestIs | src/bin.src/make/make.c:252-279 | the time compared with is the latest of the dependencies', and at least 1 |
| Make.NewerIs | src/bin.src/make/make.c:277-278 | the names passed as $? are exactly the dependencies newer than the target's file |
| Make.NewerInOrder | src/bin.src/make/input.c:61-84 | the names passed as $? keep the order of the dependencies |
| Make.DoneIsMakeable | src/bin.src/make/make.c:246-308 | everything reachable from a name that is done is done, and a target or an existing file |
| Make.NoOlder | src/bin.src/make/make.c:276-304 | a dependency is newer than a finished target if and only if the target was made, the dependency was not, and its file is dated later than that |
| Make.LaterDependency | src/bin.src/make/make.c:276-304 | a run that leaves a target older: the target is missing and its one dependency is a file dated after the run |
| Make.EveryRunUpToDate | src/bin.src/make/make.c:246-308 | every run, however its clock moves, leaves all names up to date if and only if no target that would be made at once has a dependency that would not be made and is dated after the start |
| Make.NothingFromTheFuture | src/bin.src/make/make.c:276-304 | with no file dated after the start, every finished name is at least as new as its dependencies |
| Make.Finish | src/bin.src/make/make.c:290-304 | making a target, or finding it up to date, keeps the invariant over the whole run |
| Make.Maker.ModTime | src/bin.src/make/make.c:200-217 | a missing file has time 0 and an existing one at least 1; what is done is not disturbed |
| Make.Maker.Finishing | src/bin.src/make/make.c:290-304 | the target is made exactly if it is older than the latest dependency, and is then dated now |
| Make.Maker.Make | src/bin.src/make/make.c:246-308 | succeeds if and only if everything needed is a target or exists; whether it does or not, each target is made at most once, after its dependencies, told exactly the newer ones, nothing that cannot be made is, and only what is needed is looked at; if it fails, the dependencies before the one that cannot be made are done |
| Make.MakeGoals | src/bin.src/make/main.c:142-151 | succeeds if and only if there is no circle and every goal can be made; nothing is made if there is a circle; otherwise only what the goals need and can be made is done, all of it if it succeeds and the goals before the one that fails if not; and all is up to date if that could be told from the files before |

## Left out

- Compressor.DecompressBuffer: stated for inputs on which the decompression ends; on others the loop never looks at the error flag it raises and runs on.
- CompressedFile.ReadCompressed: likewise, once the header is accepted.
- FdlState.FdlSave: at most 357913940 open descriptors, so that the length fits its 32-bit word.
- BlockIo.Port.BalignIo: a request transfers all of a block that there is or fails, and which one fails is given beforehand, as the number of requests the server answers first; the working buffer can be had; the server's answer for the block size is a power of two; the seek message afterwards is left out.
- Make.Maker.Make: `-q`, double-colon targets and the implicit suffix rules (`dyndep`) are not modelled, commands succeed, the clock never runs back, and a file's time is what `stat` finds when make first looks at it.
- Make.MakeGoals: the exit status under `-q` is not modelled.
- Random.Generator.DoAll: `setstate` to the state in use and `initstate` with less than 8 bytes end a run here; `SetState` and `InitState` say what they do.
- DotDot.DotDot: the vector of elements is a value that is reassigned rather than memory moved by `realloc` and `bcopy`.
- QSort.Sort: records are array elements exchanged whole, where the source moves them byte by byte.
- Out-of-memory paths and `abort` everywhere; addresses in `Malloc` are unbounded and mapped pages are always fresh.
- The counters `b_elems` and `b_pages` of a bucket, which nothing reads.
- The field `m_len` of a mount slot, which is written by `mountport`, not restored after `exec`, and read by nothing; linked mount entries are sequences in list order.
- `umount`, `mount`, `open` and everything else that talks to servers; of `__do_open` only the position and whether the port's type is "null" are modelled.
- Loading the executable in `execv` (header and map file), and what `set_cmd` does with the command's name.
- The built-in initial table of the random number generator; a generator starts from any saved state.
- `calloc`, `pio` items other than characters and longs, `hash_dealloc`, `rmap_dump`, `lseek`, `read` and `write` dispatch.
- Message passing, the name server, terminal and system log code, the boot loader and the kernel.
- Smaller library parts: ctype, string, environment, passwd, printf and strtoul, calendar conversion, linked lists.
