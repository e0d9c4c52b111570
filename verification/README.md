# Syslinux, verified in Dafny

The self-contained algorithms of Syslinux, modelled in the form the C code has and proved against simple
definitions of what they are for.

- **DEFLATE** (`Bits`, `CanonicalCode`, `HuftTable`, `HuftGeometry`, `HuftBuild`, `HuftPlan`, `HuftDecode`,
  `DeflateSpec`, `Crc32`, `Window`, `SymbolTables`, `InflateCases`, `Inflate`, `DeflateLocality`, `Unzip`, `BitWriter`,
  `DeflateTokens`, `DeflateWriter`, `DeflateHeader`, `DeflateStream`).
  `DeflateSpec` is section 3.2 of RFC 1951 as recursive functions on a bit stream: canonical codes, an unbounded
  output, matches copied byte by byte. `Inflate.Inflater` is memdisk's decoder with its multi-level tables, its bit
  buffer that is saved and restored between blocks, its circular window and its table-driven CRC. The end result is
  `Unzip.Unzip`: an image is accepted if and only if it is a DEFLATE stream that fills its input exactly and has the
  announced size and CRC. What a DEFLATE stream is, is said a second time from the writing side, with the explicit
  fixed codes, lengths and distances by their powers of two, and headers symbol by symbol; `DeflateStream.InflatesIff`
  and `DeflateStream.GenuineIff` show that exactly what can be so written is accepted, and that it gives its plain
  output.
- **The DOS allocator** (`Arena`, `ArenaProofs`, `DosHeap`, `HeapMemory`). The arena as a tiling by blocks, with what
  every run of calls keeps and what callers get; then `DosHeap.Heap`, which rewrites header fields and two circular
  doubly linked chains in memory and is shown to do the same; then the bytes of memory, where callers write to their
  allocations.
- **The E820 map** (`E820`, `E820Map`). A sorted row table denotes a total function from 64-bit addresses to types;
  `insertrange` is pointwise override, the table is the unique shortest one for its function.
- **Partitions** (`PartSpec`, `PartIter`, `HideSpec`, `Hide`, `PartWritten`, `HideWritten`). The MBR/EBR iterator over
  arbitrary disk contents, and the hide rewriter, which never changes what the iterator finds. On a disk that was
  written from a partition table, the iterator finds that table, and the rewriter leaves it with the right types.
- **libfat** (`FatSpec`, `Fat`, `FatVolume`). Packed FAT entries, cluster chains as sector walks, the sector cache,
  directory search. On a volume that was written from a layout, links and files, opening, searching and following
  chains give these back.
- **Installer encodings** (`Extents`, `ExtentPages`, `Patch`, `AdvSpec`, `AdvLoop`, `Adv`). A sector map as the
  shortest list of extents, the checksummed image that records it, and the duplicated, checksummed store of tagged
  items.
- **RLL packing** (`Rll`), **number text** (`NumberText`, `NumberParse`) and **64-bit division** (`Division`).

`Widths`, `Bytes` and `Options` hold what several of these share. `dafny verify dfyconfig.toml` covers the whole project.

## How the C code is read

- Integers are unbounded; wrap-around is written out (`% WRAP`) wherever the C code relies on it or can reach it.
- C `NULL` and error returns are results; the ways in which memdisk dies are statuses of the decoder: `Err` for bad
  data, `Starved` for input that ends, `Overrun` for output that does not fit, and `Wild` where the C code would read
  memory it never initialised (a bit pattern without a code in a set that `huft_build` let pass incomplete).
- Distances that reach back before the start of the output find the zeroed window, as in the code; RFC 1951 has no
  such streams. The same holds for repeating a code length before there is one, which counts as zero.
- `huft_build` never runs out of memory here. Its tables are right whenever the set needs at most two levels or has
  fewer codes than the root table has entries (`HuftTable.Narrow`); outside that, memdisk/inflate.c:393 makes tables
  wider than intended. `InflateCases.SetTable` and `InflateCases.FixedSets` show that the decoder stays inside.
- The four bytes that unzip lets the decoder look at past the compressed data do not change the result
  (`Unzip.SlackIrrelevant`).
- A disk is a map from readable sector numbers to sectors. Writes can fail where a set of bad sectors says so.
- In the allocator, address 0 stands for NULL and for the list head, which is no block. `DosHeap.Heap.constructor`
  requires that the arena ends at least 32 bytes below the end of the address space; from that it follows that the
  comparison which decides whether a block is split does not wrap.
- Signed negation wraps, as mk/embedded.mk:39 tells the compiler.
- The comment in com32/chain/partiter.c:382-388 says that a hole does not increase `index0`; the code does increase it
  and subtracts the holes again (`logskipcnt`). The model follows the code.
- The last update after the loop of `manglepe_hide` (com32/chain/mangle.c:568-572) cannot be reached with anything to
  write, because every round from the last primary entry on writes its own changes; it is not in the model.
- `strntoumax` does not count a plus sign off the length, so it can look at one more character; texts are therefore
  followed by their null character.

## Properties that fail, and when

- The 64 KiB test of `generate_extents` compares the first and the last byte of one sector, so it is always true
  (`Extents.NoBoundary`), and an extent can cross a 64 KiB boundary: sectors 0 to 64 are an example
  (`ExtentPages.PageCrossed`), and so is every map that starts with 65 consecutive sectors
  (`ExtentPages.LongRunCrosses`). No extent crosses one if and only if, for every j that is 64 modulo 128, the map
  ends before sector j or j lies a multiple of 127 sectors behind the start of its run of consecutive sectors
  (`ExtentPages.PagesKept`).
- `malloc` serves a request with enough room if and only if rounding does not wrap: `Arena.RoundEnough`, with
  `Arena.RoundWraps` for the first request that does. For all that do, `DosHeap.Heap.Malloc` returns the first free
  block, and that is too small.
- `insertrange` leaves a sorted table if and only if the range does not roll over the end of the address space, or
  starts with a row, or is of the type that is already there; in the last two cases a range that rolls over is not
  recorded. `E820.RolledOver` and `E820Map.Map.InsertRange` say so, and `E820.RollExample` is a table out of order.
- `parse_mem` is right if and only if the last range is not memory that starts at or below 16 MiB, and `setmaxmem` if
  and only if it is not memory that starts below the limit: `E820Map.Map.ParseMem`, `E820Map.Map.SetMaxMem`; a map
  that is all memory is an example (`E820Map.AllMemory`).
- The table size check of `libfat_open` lets a 12-bit table be one byte short; `Fat.Table12Holds` says exactly when,
  and `Fat.Table12Short` gives a boot sector that is accepted.
- The deletion loop of `syslinux_setadv` moves items up in an area whose size it does not reduce, so in an area
  without an end mark it goes on with bytes that were left behind (`AdvLoop.StaleItems`). It can keep an item that
  never was there (`AdvLoop.PhantomKept`), or never end (`AdvLoop.DeleteForever`). It ends with exactly the items of
  other tags if and only if the area is `Clean`: what it stands at once the items are used up (`AdvLoop.Left`) makes
  it break before anything more is kept (`AdvLoop.DeletesExactly`). If those bytes do not begin with the tag, this
  means that they stop it at once (`AdvLoop.KeepsIffStops`). An end mark is enough, and so is having nothing to
  delete but the last item of a full area (`AdvLoop.MovableClean`).
- `__divdi3` truncates towards zero except for the one quotient that does not fit: `Division.DivDi3`.

## Model

| member | source | states |
|---|---|---|
| `CanonicalCode.PrefixFree` | memdisk/inflate.c:368-384 | no canonical code is a prefix of another, whatever the lengths |
| `CanonicalCode.MatchUnique` | memdisk/inflate.c:515-524 | at most one symbol's code starts the bits at a position |
| `CanonicalCode.LeftNegative` | memdisk/inflate.c:338-344 | an oversubscribed set stays oversubscribed at longer lengths |
| `CanonicalCode.DecodeIs` | memdisk/inflate.c:515-524 | a symbol whose code starts the bits is the one the reference decodes |
| `HuftPlan.CountLengths` | memdisk/inflate.c:300-311 | the array holds the number of codes of every length |
| `HuftPlan.LengthRange` | memdisk/inflate.c:320-334 | shortest and longest length in use |
| `HuftPlan.LeftOver` | memdisk/inflate.c:338-344 | patterns left at the longest length, or a negative number exactly for oversubscribed sets |
| `HuftPlan.StartOffsets` | memdisk/inflate.c:348-354 | where the symbols of each length start in code order |
| `HuftPlan.SortValues` | memdisk/inflate.c:358-364 | every symbol with a code stands at the place of its code in code order |
| `HuftBuild.ChooseBits` | memdisk/inflate.c:391-404 | a table is full width or the codes under it fit it, and under `Narrow` it has at most l bits |
| `HuftBuild.AddTable` | memdisk/inflate.c:406-431 | a new table and its link keep the builder's invariant over tables, open levels and prefixes |
| `HuftBuild.FillTable` | memdisk/inflate.c:448-451 | exactly the entries congruent to the start are written |
| `HuftBuild.FillKeeps` | memdisk/inflate.c:448-451 | after that, all tables are finished for every word up to the end of the code |
| `HuftBuild.BackIncrement` | memdisk/inflate.c:453-456 | the reversed code becomes the reversal of the next code |
| `HuftBuild.BackUp` | memdisk/inflate.c:458-462 | exactly the tables that the next code has left are closed |
| `HuftBuild.PlaceCode` | memdisk/inflate.c:382-464 | one code is entered and the invariant holds for the next one |
| `HuftBuild.MakeTables` | memdisk/inflate.c:368-466 | in the end every entry of every table is a code's entry or a link, and the root has l bits |
| `HuftPlan.Build` | memdisk/inflate.c:264-472 | huft_build returns 0, 1 or 2 as the set is usable, incomplete or oversubscribed, and otherwise tables that are `Ready` for its canonical codes |
| `HuftDecode.Lookup` | memdisk/inflate.c:515-524 | the entry found continues the walk at the right table, or belongs to a code the input continues with |
| `HuftDecode.WalkDecodes` | memdisk/inflate.c:515-524 | walking the tables on any bits ends at the entry of the symbol whose canonical code starts them, after that code's bits, or says that no code does |
| `HuftDecode.StepByFlag` | memdisk/inflate.c:516-523 | the flag of an entry tells links from ends |
| `SymbolTables.LengthTable` | memdisk/inflate.c:157-167 | cplens and cplext agree with the closed form of section 3.2.5 of RFC 1951 |
| `SymbolTables.DistanceTable` | memdisk/inflate.c:168-178 | cpdist and cpdext agree with the closed form |
| `SymbolTables.CodeLengthsAre` | memdisk/inflate.c:736-743 | lengths stored in the sent order are the code length code of the reference |
| `SymbolTables.FixedLengths` | memdisk/inflate.c:654-662 | the lengths of section 3.2.6 of RFC 1951 |
| `InflateCases.SetTable` | memdisk/inflate.c:811-836 | tables built for any usable set of a dynamic block decode it at the widths 9 and 6 |
| `InflateCases.CodeLengthTable` | memdisk/inflate.c:747-753 | the code length code always gets one table of 7 bits or less |
| `InflateCases.SingleLevel` | memdisk/inflate.c:762-765 | there the first lookup is the only one |
| `InflateCases.FixedSets` | memdisk/inflate.c:654-676 | the fixed literal set is complete, the fixed distance set lacks two codes and is accepted |
| `Window.HistorySlot` | memdisk/inflate.c:556-563 | the cell dist back in the circular window is the byte dist back in the output, for every dist up to 32768 |
| `Window.FlushFull` | memdisk/inflate.c:528-531 | a flushed full window is the history of the next round |
| `Window.BlockCopy` | memdisk/inflate.c:565-568 | where memcpy is used it copies what the byte by byte copy would |
| `InflateCases.CopySplit` | memdisk/inflate.c:561-579 | a match copied in runs is the match copied at once |
| `Inflate.Inflater.NeedBits` | memdisk/inflate.c:219-221 | bits held are the next bits of the input, none lost or repeated; fails only at the end of the input |
| `Inflate.Inflater.TakeBits` | memdisk/inflate.c:219-221 | the value is the next n bits, least significant first, and the position moves by n |
| `Inflate.Inflater.Flush` | memdisk/unzip.c:156-175 | the window cells are appended to the output, counted and summed, or do not fit |
| `Inflate.Inflater.PutByte` | memdisk/inflate.c:525-531 | the output grows by exactly that byte, across the end of the window |
| `Inflate.Inflater.CopyRun` | memdisk/inflate.c:565-574 | both copy forms produce the run that section 3.2.3 of RFC 1951 appends |
| `Inflate.Inflater.CopyBytes` | memdisk/inflate.c:560-579 | the output grows by the whole match, overlapping or going round the window |
| `Inflate.Inflater.NextEntry` | memdisk/inflate.c:515-524 | the entry the walk over the input from this position finds, with the bits in step |
| `Inflate.Inflater.DoMatch` | memdisk/inflate.c:538-579 | decodes a length and a distance as the reference does |
| `Inflate.Inflater.InflateCodes` | memdisk/inflate.c:492-590 | decodes a block to the reference output and position, or fails for the reason the reference fails |
| `Inflate.Inflater.InflateStored` | memdisk/inflate.c:592-638 | the same for stored blocks, after byte alignment |
| `Inflate.Inflater.InflateFixed` | memdisk/inflate.c:640-686 | the same for fixed codes |
| `Inflate.Inflater.ReadAllLengths` | memdisk/inflate.c:757-796 | the code lengths are those the reference reads, with repeats and overruns |
| `Inflate.Inflater.InflateDynamic` | memdisk/inflate.c:688-852 | the same for dynamic codes, with every rejected header |
| `Inflate.Inflater.InflateBlock` | memdisk/inflate.c:854-894 | one block of any type and its final flag |
| `Inflate.Inflater.Run` | memdisk/inflate.c:896-939 | the whole stream: output, CRC, and bytes consumed equal to the bits used over 8, rounded up |
| `Crc32.MakeCrc` | memdisk/inflate.c:956-987 | the table holds eight bit-serial steps of every byte |
| `Crc32.UpdateIsCrcByte` | memdisk/unzip.c:156-175 | the table update is eight steps of the bit-serial CRC of section 8 of RFC 1952 |
| `Crc32.CrcAppend` | memdisk/unzip.c:156-175 | the CRC does not depend on how the output is cut into flushes |
| `Crc32.KnownValue` | memdisk/unzip.c:156-175 | the CRC of the byte 0x7F is 0x12B88320 |
| `DeflateLocality.InflateLocal` | memdisk/unzip.c:364-367 | inputs that agree up to the end of a stream decode alike |
| `Unzip.SlackIrrelevant` | memdisk/unzip.c:364-367 | stopping exactly at the end is the same with and without the slack bytes |
| `Unzip.Unzip` | memdisk/unzip.c:354-390 | returns the data of a genuine image and nothing for any other |
| `BitWriter.PackedAt` | memdisk/inflate.c:219-221 | bits packed eight to the byte from the low end are read back in order, whatever follows |
| `BitWriter.AtLow` | memdisk/inflate.c:219-221 | a number written low bit first is the number read |
| `BitWriter.AtHigh` | memdisk/inflate.c:515-524 | a code written high bit first is the code read |
| `DeflateTokens.CopyRepeats` | memdisk/inflate.c:556-579 | copying byte by byte repeats the last bytes periodically, also where source and target overlap |
| `DeflateTokens.LengthStands` | memdisk/inflate.c:157-167 | the symbol and extra bits found from the powers of two of a length stand for it in the table |
| `DeflateTokens.LengthOf` | memdisk/inflate.c:157-167 | and no other symbol does, but for the second way to write 258 |
| `DeflateTokens.DistStands` | memdisk/inflate.c:168-178 | the same for distances |
| `DeflateTokens.DistOf` | memdisk/inflate.c:168-178 | and no other symbol does |
| `DeflateTokens.TokensRead` | memdisk/inflate.c:492-590 | literals and references written with the canonical codes of two sets decode to their plain output |
| `DeflateTokens.TokensWritten` | memdisk/inflate.c:492-590 | and where a block of codes decodes, such tokens stand |
| `DeflateWriter.StoredRead` | memdisk/inflate.c:592-638 | padding, length, complement and data decode to the data |
| `DeflateWriter.StoredWritten` | memdisk/inflate.c:592-638 | and where a stored block decodes, these stand |
| `DeflateWriter.FixedIsListed` | memdisk/inflate.c:654-662 | the canonical code of the fixed lengths is the one listed in section 3.2.6 of RFC 1951 |
| `DeflateWriter.FixedRead` | memdisk/inflate.c:640-686 | tokens written with the listed codes decode to their plain output |
| `DeflateHeader.SentOrder` | memdisk/inflate.c:153-156 | the order of the code length code lengths, in closed form |
| `DeflateHeader.OpsRead` | memdisk/inflate.c:757-796 | lengths, repeats and runs of zeros, written with their symbols, give the lengths they stand for |
| `DeflateHeader.HeaderRead` | memdisk/inflate.c:720-796 | a written header gives its two sets of code lengths |
| `DeflateHeader.HeaderStands` | memdisk/inflate.c:720-796 | and where a header is accepted, one stands |
| `DeflateHeader.HeaderFor` | memdisk/inflate.c:688-852 | every pair of sets of lengths has a header |
| `DeflateHeader.DynamicRead` | memdisk/inflate.c:688-852 | a header and tokens written with its codes decode to the plain output of the tokens |
| `DeflateStream.BlockRead` | memdisk/inflate.c:854-894 | a block of any type with its final flag decodes to its output |
| `DeflateStream.InflatesIff` | memdisk/inflate.c:896-939 | inflating succeeds exactly where a sequence of such blocks stands, the last one final, and gives their output and end |
| `DeflateStream.GenuineIff` | memdisk/unzip.c:354-390 | the images accepted are exactly those that hold such a stream, up to their last byte, with the right size and CRC |
| `DeflateStream.RoundTrip` | memdisk/inflate.c:896-939 | any blocks, packed into bytes, inflate to their output |
| `DeflateStream.ChunksHold` | memdisk/inflate.c:592-638 | any data are the output of a sequence of stored blocks |
| `Arena.RoundEnough` | dos/malloc.c:88-89 | a multiple of the header size, with room for the request and its header and less than another header to spare, if and only if rounding does not wrap; else nothing or one header |
| `Arena.RoundWraps` | dos/malloc.c:88-89 | a request of 2^32 - 31 bytes rounds to 0 |
| `ArenaProofs.TakeInv` | dos/malloc.c:40-79 | allocating keeps tiling, sizes, the free chain and coalescing |
| `ArenaProofs.ReleaseInv` | dos/free.c:10-58 | so does freeing, with joining on both sides |
| `ArenaProofs.TakeLive` | dos/malloc.c:40-79 | the live allocations gain exactly one, large enough |
| `ArenaProofs.ReleaseLive` | dos/free.c:10-58 | the live allocations lose exactly the freed one |
| `ArenaProofs.LiveDisjoint` | dos/malloc.c:40-101 | live allocations lie in the arena and do not overlap |
| `ArenaProofs.FailsOnly` | dos/malloc.c:91-100 | first fit fails if and only if no run of free bytes is as long as the rounded request |
| `ArenaProofs.RunInv` | dos/malloc.c:24-101 | any sequence of calls keeps the invariant |
| `ArenaProofs.RunGrid` | dos/malloc.c:24-101 | in any sequence of calls, all blocks stay a multiple of the header size behind the start of the arena |
| `ArenaProofs.RunAligned` | dos/malloc.c:24-101 | so in an arena that starts and ends at multiples of it, all blocks do |
| `ArenaProofs.DrainAnyOrder` | dos/free.c:60-73 | freeing all live allocations in any order restores the initial arena |
| `DosHeap.RingInsert` | dos/malloc.c:58-62 | inserting into a doubly linked ring with these stores |
| `DosHeap.RingRemove` | dos/free.c:45-49 | removing from a ring with these stores |
| `DosHeap.RingReplace` | dos/malloc.c:64-68 | replacing an element of a ring with these stores |
| `DosHeap.Heap.constructor` | dos/malloc.c:24-38 | one free block on both chains |
| `DosHeap.Heap.SplitBlock` | dos/malloc.c:47-68 | headers and chains describe the arena after the rest of a block was split off |
| `DosHeap.Heap.UseBlock` | dos/malloc.c:69-76 | the same for a block that is used whole |
| `DosHeap.Heap.MallocFromBlock` | dos/malloc.c:40-79 | headers and chains describe the arena after the allocation, split or not as the size test decides |
| `DosHeap.Heap.Malloc` | dos/malloc.c:81-101 | up to 2^32 - 32 bytes, a new disjoint allocation with room for n bytes, a multiple of the header size behind the start of the arena, or NULL and no free run long enough, and the arena changes as `Serve` says; for a larger request a block with less room than asked for, or NULL if nothing is free |
| `DosHeap.Heap.FreeBlock` | dos/free.c:10-58 | headers and chains describe the arena after the release |
| `DosHeap.Heap.Free` | dos/free.c:60-73 | exactly that allocation is gone; NULL does nothing |
| `HeapMemory.PayloadApart` | dos/malloc.h:10-42 | no byte of a live allocation behind its header lies in a header, or in the links of a free block |
| `HeapMemory.WritesKeepFields` | dos/malloc.h:10-42 | so memory in which only such bytes were written holds the fields of every block as before |
| `HeapMemory.PayloadIrrelevant` | dos/malloc.h:10-42 | and whatever fields are read from it then describe the same arena |
| `E820.BoundaryShared` | memdisk/e820func.c:87-107 | a canonical row start is a row start of every map with the same meaning |
| `E820.CanonicalUnique` | memdisk/e820func.c:87-107 | two canonical maps with the same meaning are the same rows |
| `E820.CanonicalFewest` | memdisk/e820func.c:87-107 | no map with that meaning has fewer rows |
| `E820.InsertMeaning` | memdisk/e820func.c:54-107 | the type of every address in the range is the new one, of every other the old one |
| `E820.InsertShape` | memdisk/e820func.c:54-107 | rows stay sorted from 0, become canonical, and grow by at most 2 |
| `E820.HistoryShape` | memdisk/setup.c:992-997 | k calls leave at most 2k + 1 rows, canonical ones |
| `E820.HistoryMeaning` | memdisk/e820func.c:54-107 | after any calls the last one covering an address decides its type |
| `E820.SameHistorySameRows` | memdisk/e820func.c:54-107 | histories with the same meaning leave identical rows |
| `E820.RolledOver` | memdisk/e820func.c:65-106 | a range that rolls over leaves the meaning as it was or the rows out of order, and when |
| `E820.RollExample` | memdisk/e820func.c:65-106 | two bytes from the last address on leave three rows out of order |
| `E820Map.Map.constructor` | memdisk/e820func.c:32-37 | one row of type 0 and the end row |
| `E820Map.Map.InsertAt` | memdisk/e820func.c:39-52 | a row inserted in the array, the end row moved up |
| `E820Map.Map.Recolour` | memdisk/e820func.c:78-82 | every row that starts in the range has the new type; the last old type is kept |
| `E820Map.Map.Squeeze` | memdisk/e820func.c:87-106 | redundant rows removed in place |
| `E820Map.Map.InsertRange` | memdisk/e820func.c:54-107 | the array after the call denotes the override and is canonical; if the range rolls over, it is not recorded where it starts with a row or is of the type there, and elsewhere the rows are out of order |
| `E820Map.Map.ParseMem` | memdisk/msetup.c:148-178 | the three sizes are the lengths of the memory spans at 0, 1 MiB and 16 MiB, if and only if the last row is closed there |
| `E820Map.AllMemory` | memdisk/msetup.c:155-163 | on a map that is all memory, the 0 that is computed is not the size of low memory |
| `E820Map.Map.SetMaxMem` | memdisk/setup.c:725-748 | memory from the limit on is reserved and nothing else changed, if and only if the last row is not memory below the limit, although the array changes under the scan |
| `PartSpec.WalkEnds` | com32/chain/partiter.c:283-392 | for any disk, also with cyclic EBR chains, at most 1024 entries and then a status that is not Ok |
| `PartSpec.StrictWalk` | com32/chain/partiter.c:164-260 | in strict mode every partition found is not empty, does not wrap, and lies in its EBR frame, the base extended partition and, in stricter mode, the disk |
| `PartSpec.StrictFromStart` | com32/chain/partiter.c:97-120 | so it is in every walk from a fresh iterator |
| `PartSpec.LogicalNumbers` | com32/chain/partiter.c:450-460 | logical partitions are numbered 5, 6, 7 and so on across holes |
| `PartSpec.PlainWalk` | com32/chain/partiter.c:433-470 | plain iteration finds the data partitions that stepping over everything finds, with the same numbers, and ends alike |
| `PartIter.Iterator.NextMbr` | com32/chain/partiter.c:283-313 | the fields after dos_next_mbr |
| `PartIter.Iterator.PrepBaseEbr` | com32/chain/partiter.c:315-333 | the fields after prep_base_ebr |
| `PartIter.Iterator.NextEbr` | com32/chain/partiter.c:335-392 | the fields after dos_next_ebr |
| `PartIter.Iterator.Next` | com32/chain/partiter.c:433-470 | one step of the walk |
| `PartWritten.WrittenWalk` | com32/chain/partiter.c:283-470 | on a disk with a sane table in the MBR and in a chain of EBRs, at any bytes elsewhere, a walk over all entries yields the four of the MBR as 1 to 4 and then the logical ones from 5 on, each with its start, length, type and place, and is done |
| `HideSpec.SameWalk` | com32/chain/partiter.c:433-470 | on disks that differ in hide bits only, any walk finds the same entries, numbers, LBAs and lengths and ends alike |
| `HideSpec.AppliedBytes` | com32/chain/mangle.c:494-517 | all bytes after a rewrite: only type bytes visited change, and the last visit decides |
| `HideSpec.HideAlike` | com32/chain/mangle.c:494-517 | only bit 0x10 of hideable types changes |
| `HideSpec.HideKeepsWalk` | com32/chain/mangle.c:526-579 | a fresh walk with any flags finds the same after hiding |
| `HideSpec.HideIdempotent` | com32/chain/mangle.c:526-579 | hiding again changes nothing |
| `HideSpec.ExactlySelected` | com32/chain/mangle.c:526-579 | where no entry is visited twice, exactly the selected hideable partition is left visible |
| `Hide.FlipHide` | com32/chain/mangle.c:494-517 | the entry's type is flipped, and whether it changed |
| `Hide.HideEntry` | com32/chain/mangle.c:545-563 | one round: the flip, and the write that is due at the end of the MBR and in every EBR |
| `Hide.ManglePeHide` | com32/chain/mangle.c:526-579 | without failing writes the disk is the flipped one, in any case it differs in hide bits only, and the matched iterator's buffer stays what the disk holds |
| `HideWritten.HiddenWritten` | com32/chain/mangle.c:494-579 | on such a disk the rewrite leaves the same table in which, of the FAT and NTFS partitions, the selected one is visible and the others are hidden, logical ones only with the ext option, and all are visible in reverse mode |
| `FatSpec.LinkIsEntry` | libfat/fatchain.c:74-131 | the bytes assembled from sectors are the packed 12, 16 or 28-bit entry |
| `FatSpec.ChainWalk` | libfat/fatchain.c:45-134 | from the first sector of a chain, the next sectors are all sectors of its clusters in order, then 0 |
| `FatSpec.RootWalk` | libfat/fatchain.c:55-62 | a root directory of its own is the sectors up to the data area |
| `FatVolume.EntryWritten` | libfat/fatchain.c:74-131 | links packed into a table, two 12-bit ones in three bytes, are read back |
| `FatVolume.ChainWritten` | libfat/fatchain.c:74-134 | clusters linked in a list of links are a chain of the packed table |
| `FatVolume.BadLink` | libfat/fatchain.c:124-134 | a link that is neither a cluster nor one of the last eight numbers is an error |
| `Fat.GeometryFrom` | libfat/open.c:59-105 | the field updates of libfat_open give the geometry that the layout of a FAT volume defines, or none |
| `Fat.ComputeGeometry` | libfat/open.c:46-105 | the one cluster size that the boot sector names is found, 256 for the byte 0, and the geometry is the one for it |
| `Fat.GeometrySound` | libfat/open.c:75-93 | cluster numbers stay below the end marks, and clusters inside the volume |
| `Fat.TableHolds` | libfat/open.c:79-98 | the first FAT holds every 16-bit and 28-bit entry |
| `Fat.Table12Holds` | libfat/open.c:79-98 | when it holds every 12-bit entry, and when it is a byte short |
| `Fat.Table12Short` | libfat/open.c:83-98 | a boot sector with 683 entries in two FAT sectors is accepted, and the last entry needs a byte more |
| `FatVolume.BootGeometry` | libfat/open.c:46-105 | a boot sector with the fields of a layout gives that layout, if the table is large enough for its clusters |
| `Fat.Volume.Flush` | libfat/cache.c:54-65 | an empty cache with the same capacity |
| `Fat.Volume.GetSector` | libfat/cache.c:22-52 | for any coherent cache, what the disk holds; fails only if the sector cannot be read or there is no memory at all |
| `Fat.Volume.NextSector` | libfat/fatchain.c:45-134 | the next sector of the walk, whatever is cached |
| `Fat.Volume.SearchDir` | libfat/searchdir.c:24-64 | the answer for what the scan of the directory's sectors finds |
| `Fat.SearchFinds` | libfat/searchdir.c:42-60 | an entry with the name, before which there is neither the name nor a zero entry, is found |
| `Fat.SearchFound` | libfat/searchdir.c:42-60 | and only such an entry is |
| `Fat.ScanIsSearch` | libfat/searchdir.c:31-63 | scanning sector by sector is searching the list of all entries |
| `Fat.DirectoryFound` | libfat/searchdir.c:24-64 | along a cluster chain, the scan finds the first match among all entries of the directory |
| `Fat.Volume.SearchChain` | libfat/searchdir.c:24-64 | so searching a directory given by a chain answers for that entry, whatever is cached |
| `FatVolume.AnswerWritten` | libfat/searchdir.c:49-53 | the answer for a written entry is its cluster as a signed number, or 0 for an empty file |
| `FatVolume.FileFound` | libfat/searchdir.c:24-64 | in a written directory, searching finds the first file with the name |
| `FatVolume.FileAbsent` | libfat/searchdir.c:24-64 | and -2 if there is none before the end or an entry that marks it |
| `FatVolume.MapFile` | dos/syslinux.c:704-713 | finding a file and following its chain lists the sectors of its clusters, up to the limit, whatever is cached |
| `Extents.ExpandsToMap` | libinstaller/syslxmod.c:35-80 | the extents have 1 to 127 sectors and expand to the sector map |
| `Extents.FewestExtents` | libinstaller/syslxmod.c:35-80 | every list of extents of that size for the map is at least as long |
| `Extents.NoBoundary` | libinstaller/syslxmod.c:54-56 | the 64 KiB test is always true |
| `ExtentPages.StartsIff` | libinstaller/syslxmod.c:35-80 | extents start at the beginning of every run of consecutive sectors and after every 127 sectors of it, and nowhere else |
| `ExtentPages.PagesKept` | libinstaller/syslxmod.c:35-80 | no extent crosses a 64 KiB boundary when loaded if and only if every sector loaded to the beginning of a page is such a place |
| `ExtentPages.LongRunCrosses` | libinstaller/syslxmod.c:54-56 | a map that starts with 65 consecutive sectors has an extent that crosses |
| `ExtentPages.PageCrossed` | libinstaller/syslxmod.c:54-56 | sectors 0 to 64 are such a map |
| `Extents.ReadTable` | libinstaller/syslxmod.c:61-63 | the table read up to the first empty slot gives the extents back |
| `Extents.GenerateExtents` | libinstaller/syslxmod.c:35-80 | the table in the image holds the extents and zeros, and nothing else changes |
| `Patch.PatchBoot` | libinstaller/syslxmod.c:131-140 | the boot sector points to the first sector |
| `Patch.SetChecksum` | libinstaller/syslxmod.c:194-201 | the words of the image sum to the magic number modulo 2^32 |
| `Patch.HoldsRecorded` | libinstaller/syslxmod.c:131-172 | pointer, expanded extents and the two last pointers are the sector map |
| `Patch.HoldsFewest` | libinstaller/syslxmod.c:154-167 | in as few extents as possible |
| `Patch.SyslinuxPatch` | libinstaller/syslxmod.c:106-208 | too few sectors change nothing; a name that does not fit stops; otherwise map and checksum, totals, transfer limit, names and RAID patch are recorded, and no byte outside these fields changes |
| `Patch.FieldsWritten` | libinstaller/syslxint.h:202-214 | the ten words of the extended patch area are read as the fields they were written for |
| `AdvSpec.ItemsOfEncoding` | libinstaller/setadv.c:79-103 | items read back as they were written |
| `AdvSpec.FramedConsistent` | libinstaller/setadv.c:41-57 | signatures and checksum pass the check |
| `AdvSpec.ConsistentIsFramed` | libinstaller/setadv.c:136-150 | a copy that passes the check is determined by its data area |
| `AdvSpec.EmptyFrame` | libinstaller/setadv.c:41-57 | the bytes of a copy without items |
| `Adv.Delete` | libinstaller/setadv.c:79-103 | wherever the loop ends, the working copy and the place to write to are those of the loop on values that the `AdvLoop` lemmas are about |
| `AdvLoop.ThroughItems` | libinstaller/setadv.c:79-103 | the loop goes through the items one by one, keeps those of other tags in order, and stands at the tail and what deletions left behind |
| `AdvLoop.DeletesExactly` | libinstaller/setadv.c:79-103 | it ends with exactly the items of other tags before the place to write to if and only if the area is clean |
| `AdvLoop.KeepsIffStops` | libinstaller/setadv.c:79-103 | if what is left does not begin with the tag, that is so if and only if it stops the loop |
| `AdvLoop.CleanIff` | libinstaller/setadv.c:79-103 | the same for clean, whether the loop ends or not |
| `AdvLoop.MovableClean` | libinstaller/setadv.c:79-103 | an area with an end mark, or with nothing of the tag but the last item of a full area, is clean |
| `AdvLoop.PhantomKept` | libinstaller/setadv.c:87-94 | a full area of three items, from which deleting the first leaves an item that was not there |
| `AdvLoop.StaleItems` | libinstaller/setadv.c:87-94 | what the deletion of the first item leaves to be read in a full area |
| `AdvLoop.DeleteForever` | libinstaller/setadv.c:87-94 | an area that no number of turns changes and on which the loop never ends |
| `Adv.Edit` | libinstaller/setadv.c:74-120 | succeeds if and only if what was kept and the new item fit, and then holds them and zeros |
| `Adv.Cleanup` | libinstaller/setadv.c:41-57 | both copies are the frame around the data area |
| `Adv.SetAdv` | libinstaller/setadv.c:59-127 | fails and changes nothing exactly for a bad tag or too little space; otherwise two equal framed copies of what was kept, the new item and zeros |
| `Adv.SetsExactly` | libinstaller/setadv.c:59-127 | what it writes are the updated items if and only if the area was clean |
| `Adv.CleanEnds` | libinstaller/setadv.c:79-103 | on a clean area the loop ends |
| `Adv.SetThenRead` | libinstaller/setadv.c:59-127 | what an update leaves is consistent and reads back |
| `Adv.AdvConsistent` | libinstaller/setadv.c:136-150 | the check |
| `Adv.ValidateAdv` | libinstaller/setadv.c:156-168 | two equal consistent copies always; a copy that passes the check is recovered |
| `Rll.RoundTrip` | core/rllpack.c:34-105 | unpacking what was packed, whatever follows it, gives the bytes back and stops where packing ended |
| `Rll.PackedSize` | core/rllpack.c:34-78 | at most n + n/128 + 2 bytes |
| `Rll.RunPacked` | core/rllpack.c:57-72 | a run packs to two or three bytes, given by their values |
| `Rll.VerbatimPacked` | core/rllpack.c:57-67 | up to 128 bytes without three equal ones in a row pack to their number and themselves |
| `Rll.RllPack` | core/rllpack.c:34-78 | the bytes written downwards are the packed stream |
| `Rll.RllUnpack` | core/rllpack.c:80-105 | the bytes, their number and the end of the stream, for every stream that is not truncated |
| `Rll.PackedInMemory` | core/rllpack.c:34-105 | the packed bytes in memory unpack to what was packed, ending at the same address |
| `NumberText.NumeralValue` | dos/printf.c:77-82 | the digits of a number have its value |
| `NumberText.PutDigits` | dos/printf.c:77-82 | the digits in reverse, at most 32 of them |
| `NumberText.Number` | dos/printf.c:43-109 | the text for every base, width, precision and flags |
| `NumberText.TextWidth` | dos/printf.c:83-107 | the text is as long as the width, or as its parts if they are longer |
| `NumberText.TextPlaces` | dos/printf.c:83-107 | it is filled up with blanks behind, with zeros between prefix and digits, or with blanks in front |
| `NumberParse.StrNToUMax` | dos/strntoumax.c:24-73 | value and end for any text, base and length |
| `NumberParse.ReadBack` | dos/strntoumax.c:24-73 | the text of a number is read back as the number, modulo 2^64 |
| `NumberParse.ReadTelling` | dos/strntoumax.c:44-73 | with base 0, digits behind 0x, behind 0, and others are read to their end as hexadecimal, octal and decimal |
| `Division.UDivMod` | dos/__udivmoddi4.c:3-31 | quotient and remainder for every divisor but zero |
| `Division.QuotientUnique` | dos/__udivmoddi4.c:3-31 | there is only one such pair |
| `Division.DivDi3` | dos/__divdi3.c:10-29 | for all operands but a divisor 0, the quotient truncated towards zero, as far as it fits 64 bits, and when it does |
| `Division.TruncatedMeans` | dos/__divdi3.c:10-29 | the remainder is smaller than the divisor and has the sign of the dividend |

## Left out

- DosHeap.Heap.Malloc: does not say in which state the heap is after a request above 2^32 - 32 bytes.
- DosHeap.Heap.Free: requires NULL or a pointer that malloc returned and that was not freed since, as C does.
- E820Map.Map.InsertRange: requires a type other than -1, which marks the end of the table, and room in the array for two more rows, which the code does not check.
- E820Map.Map.SetMaxMem: starts from a canonical map, which is what insertrange leaves.
- HideSpec.ExactlySelected: requires that no entry is visited twice; on a cyclic chain the last visit decides.
- Adv.SetAdv: requires that its loop ends, and takes the number of turns as a ghost parameter; there is nothing to say after a loop that does not.
- Patch.SyslinuxPatch: requires patch fields that lie in the image and do not overlap, and enough extent slots; the two names may overlap each other, and are not followed further than their fields.
- NumberText.Number: its text is built in order rather than through a pointer.
- Division.DivDi3: division by zero, which traps, is not modelled.
- Fat.Volume.SearchDir: takes the sectors of the directory as a finite walk; on a cyclic chain the C loop need not end.
- Fat.Volume.NextSector: sector numbers so large that the cluster number overflows 32 bits are not modelled.
- FatSpec.ChainWalk: links to cluster 0, which the code takes for the root directory, are not part of a chain.
- huft_build: three and more levels of tables that get wider than l bits, and allocation failure.
- check_zip header parsing, placement of the unzipped image and geometry guessing in memdisk.
- GPT and raw iterators, pi_begin's choice between them, and fixchs in com32/chain.
- The linked list of libfat's cache and the buffers of tmp texts are sequences; aliasing between cached sectors is not modelled.
- BIOS, EFI, console and port I/O, installer main programs, menus, fonts, the gdb stub and isohybrid.
- vsprintf's format and argument handling, and getcmditem: easy parsing around the modelled functions.
