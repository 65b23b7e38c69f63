# A verified model of the kernel's data structures and build tools

The repository is a small x86_64 kernel together with the tools that build it. This project models nine of its
components in Dafny, each in the form the original has: limb arrays, linked nodes, page descriptors and page tables are
updated in place by methods with frames and loop invariants, and each method is proved against a specification whose own
properties are lemmas.

* **RSA engine** (`Arithmetic`, `Limbs`, `RsaNumbers`, `RsaBarrett`, `RsaProcess`, `RsaDivision`, `RsaReciprocal`,
  `RsaExamples`, `RsaSignature`). Limb arithmetic, Barrett reduction, the reciprocal by long division, the
  sliding-window exponentiation of the verification primitive of section 5.2.2 of RFC 8017, and signing followed by
  verifying.
* **Red-black tree** (`RbShape`, `RbColour`, `RbExchange`, `RbRemoval`, `RedBlackTree`). Nodes with child, parent and colour
  fields; insertion, removal, nearest-key lookups and iteration. A tree is described by a ghost tree and, for the place
  being worked on, a ghost context; validity is search order, parent links, no red-red edge and equal black heights. The
  root may be red, because the insertion loop can leave it so.
* **Compressor** (`CompressorTokens`, `CompressorSearch`, `CompressorGreedy`, `Compressor`). The failure-table search, the
  greedy parse it drives, the token encoder and the assembly decoder with its overlapping 8-byte copies.
* **Buddy page allocator** (`Bits`, `Sequences`, `BuddyBlocks`, `BuddyLists`, `BuddyPages`, `BuddyAllocator`). Page
  descriptors with list links, class index and boundary tag; bucket lists and bitmap; splitting, coalescing,
  registration of memory, and what these do to single pages.
* **Page tables** (`PageTables`, `PageMap`, `PageAddresses`). Four levels of tables with child counters; mapping,
  unmapping and translation, by indices and by addresses in bytes.
* **Coverage solver** (`CoverageGraph`, `CoverageForest`, `CoverageSolver`). The worklist that recovers all execution counts
  of a control-flow graph from the counters off the spanning tree.
* **Bitmap allocator** (`BitmapLevels`, `BitmapAllocator`). Five summary levels on disk behind one cached block per level.
* **Range allocators** (`Wrappers`, `OrderedKeys`, `ResourceManager`, `MemoryTiles`, `MemoryMap`). Identifiers and address ranges, both
  refining plain sets; the nearest-key lookups they use have the contracts proved of the red-black tree.
* **Initial file system** (`InitramfsImage`, `InitramfsReader`). The image writer and the kernel's reader.

Where the code and its intent part, the model follows the code and the exact condition is proved:

* The last loop of the modular reduction compares strictly. A multiple of the modulus comes out as the modulus itself if and
  only if it is not below the modulus and the modulus does not divide BASE^(2k); so the power engine's result is the residue
  if and only if the value is zero, the residue is not, or the modulus divides BASE^(2k). The square of 2^32 + 1 modulo
  (2^32 + 1)^2 is such a result.
* The add-back of the reciprocal's division sums limbs in 32 bits, and the subtraction after it drops its last borrow. A step
  leaves the true remainder if and only if no limb below the top one of the sum wraps and the remainder fits the sum's
  limbs. The reciprocal of 2^65 + 2^33 + 3 comes out wrong; that of 2^65 - 2^33 + 1 is right although a remainder is lost.
* An allocation of address space with no sufficient free region takes the heap below the break address, and is never refused,
  if and only if the 64-bit sum of break address, length and guard wraps, as for the whole window of the module loader.
* Freeing identifier 2^64 - 1 destroys the partition of a resource manager if and only if its predecessor is free.
* An allocation followed by its free restores the page allocator's blocks if and only if the block taken had no free buddy of
  its own size; registering a range leaves such buddies if and only if its first or last block meets one outside the range.
* Mapping a page keeps the counters right if and only if the entry written is not zero.
* Every arc count of a function is recovered if and only if the arcs without a counter form a forest that keeps entry and exit
  apart.
* The recorded size of a node is the number of its bytes if and only if no file below it is within seven bytes of 4 GiB.
* A directory with children is listed if and only if its end is below 4 GiB; one that ends there lists nothing.
* A read yields the contents, cut at their end, if and only if offset and size do not wrap in 64 bits and the cut request is
  not above 128 MiB; otherwise it panics.

`dafny verify dfyconfig.toml` checks the whole project.

## Model

| member | source | states |
|---|---|---|
| `RsaNumbers.Normalize` | src/kernel/rsa/rsa.c:24-29 | the value of the used limbs is kept, the rest is zeroed, and the length has no leading zero limb |
| `RsaNumbers.IsLessThan` | src/kernel/rsa/rsa.c:33-50 | decides exactly the order of the values, except that zero in no limbs counts as less than zero in one |
| `RsaNumbers.SubtractLimbs` | src/kernel/rsa/rsa.c:72-77 | the limbs hold the difference modulo the limb weight, and the final borrow is the sign |
| `RsaNumbers.Subtract` | src/kernel/rsa/rsa.c:70-80 | the difference modulo the weight above the minuend's limbs, with the last borrow dropped; exact when it is not negative |
| `RsaNumbers.CreateFromLimbs` | src/kernel/rsa/rsa.c:231-241 | the number with the given limbs, cut to the capacity, in normal form |
| `RsaNumbers.SubtractFixedLength` | src/kernel/rsa/rsa.c:84-93 | the value is the difference modulo BASE^n |
| `RsaNumbers.MultiplyRow` | src/kernel/rsa/rsa.c:104-111 | one row adds x times the operand at its weight; the 64-bit carry never overflows |
| `RsaNumbers.Multiply` | src/kernel/rsa/rsa.c:97-115 | the value is the shifted first operand times the second |
| `RsaNumbers.Square` | src/kernel/rsa/rsa.c:136-150 | the value is the square |
| `RsaBarrett.EstimateWithinTwo` | src/kernel/rsa/rsa.c:158-163 | for every input below BASE^(2k) the estimated quotient is never too large and at most two too small |
| `RsaBarrett.ReductionFits` | src/kernel/rsa/rsa.c:160-166 | every intermediate product fits the 2k + 3 limbs |
| `RsaBarrett.SubtractEstimate` | src/kernel/rsa/rsa.c:160-166 | the fixed-length subtraction yields the true difference of input and estimate, below three times the modulus |
| `RsaBarrett.MultipleEstimate` | src/kernel/rsa/rsa.c:158-167 | for a multiple of the modulus the estimate is the quotient if and only if the modulus divides BASE^(2k) |
| `RsaBarrett.Modulo` | src/kernel/rsa/rsa.c:154-170 | congruent to the input, at most the modulus, at most two corrections; equal to the residue if and only if the input is below the modulus, the residue is not zero, or the modulus divides BASE^(2k) |
| `RsaProcess.BitOfLimb` | src/kernel/rsa/rsa.c:330 | bit i of the exponent is bit i mod 32 of limb i / 32 |
| `RsaProcess.WindowMask` | src/kernel/rsa/rsa.c:349-356 | the padding of a pending mask is shorter than the mask and its odd part indexes the table |
| `RsaProcess.SquareTimes` | src/kernel/rsa/rsa.c:351-355 | n reduced squarings multiply the represented exponent by 2^n |
| `RsaProcess.ApplyWindow` | src/kernel/rsa/rsa.c:349-363 | one window takes the represented exponent a to a * 2^length + mask |
| `RsaProcess.BuildTable` | src/kernel/rsa/rsa.c:311-321 | entry i represents value^(2i + 1) |
| `RsaProcess.Exponentiate` | src/kernel/rsa/rsa.c:322-365 | the loop ends with the power for the whole exponent, of any length |
| `RsaProcess.PowerProduct` | src/kernel/rsa/rsa.c:316-363 | a reduced product of representatives is the representative of the sum of the exponents |
| `RsaProcess.ResidueIff` | src/kernel/rsa/rsa.c:167-169 | the representative is the residue if and only if the base is zero, the residue is not, or the modulus divides BASE^(2k) |
| `RsaProcess.ModulusForZero` | src/kernel/rsa/rsa.c:287-375 | the value 2^32 + 1 with exponent 2 under the modulus (2^32 + 1)^2 yields the modulus |
| `RsaProcess.Process` | src/kernel/rsa/rsa.c:287-375 | the public key takes the public exponent, the private key the private one, any other key fails; fails exactly on misfit buffers, a missing exponent, or a value or exponent not below the modulus; otherwise congruent to value^exponent and at most the modulus, and the residue itself under the exact condition above |
| `RsaSignature.Undone` | src/kernel/rsa/rsa.c:287-375 | if the product of the exponents fixes every residue, the first power stays below the modulus and its second power is congruent to the value |
| `RsaSignature.ThereAndBack` | src/kernel/rsa/rsa.c:287-375 | under that condition the private operation followed by the public one, or the other way round, always succeeds and gives back the value itself |
| `RsaDivision.TrialWithinOne` | src/kernel/rsa/rsa.c:200-205 | after the three-by-two correction each trial digit is the quotient digit or one more |
| `RsaDivision.GuessIsTrial` | src/kernel/rsa/rsa.c:200-205 | for a dividend in range the digit read off the limbs is that trial digit |
| `RsaDivision.AddBackIff` | src/kernel/rsa/rsa.c:54-66 | the limbwise sum is the sum if and only if no limb wraps |
| `RsaDivision.StepExact` | src/kernel/rsa/rsa.c:198-212 | for a dividend in range every step stores the quotient digit, and leaves the remainder if and only if it takes no add-back or a harmless one |
| `RsaDivision.RecoversIff` | src/kernel/rsa/rsa.c:198-212 | the stored digits are the quotient if and only if, after the first harmful step, the remaining digits are those of the true remainder |
| `RsaDivision.SafeRecovers` | src/kernel/rsa/rsa.c:198-212 | which they are when no step but the last does harm |
| `RsaReciprocal.CorrectDigit` | src/kernel/rsa/rsa.c:203-205 | the correction loop stops at the largest digit whose product does not exceed the leading limbs |
| `RsaReciprocal.TrialDigit` | src/kernel/rsa/rsa.c:200-205 | computes that digit from the limbs, for any dividend |
| `RsaReciprocal.MultiplyInt` | src/kernel/rsa/rsa.c:119-132 | the value is the product with one limb at its offset |
| `RsaReciprocal.ShiftLeft` | src/kernel/rsa/rsa.c:174-182 | the value is multiplied by the power of two that normalises the top limb |
| `RsaReciprocal.AddShifted` | src/kernel/rsa/rsa.c:54-66 | every limb of the minuend is summed on its own, without carries, for any operands |
| `RsaExamples.WrongReciprocal` | src/kernel/rsa/rsa.c:186-217 | for the modulus 2^65 + 2^33 + 3 the number computed is not the reciprocal |
| `RsaExamples.LuckyReciprocal` | src/kernel/rsa/rsa.c:186-217 | for 2^65 - 2^33 + 1 it is, although a step loses the remainder |
| `RsaExamples.HarmlessWrap` | src/kernel/rsa/rsa.c:207-211 | an add-back whose top limb wraps and that leaves the true remainder |
| `RsaReciprocal.DivisionStep` | src/kernel/rsa/rsa.c:198-212 | leaves and returns what the recurrence says, for any dividend |
| `RsaReciprocal.Divide` | src/kernel/rsa/rsa.c:198-212 | stores the digits of the recurrence |
| `RsaReciprocal.ReciprocalIff` | src/kernel/rsa/rsa.c:186-217 | the number computed is floor(BASE^(2k) / m) if and only if the division recovers |
| `RsaReciprocal.CalculateMu` | src/kernel/rsa/rsa.c:186-217 | for every modulus of two or more limbs, the number the recurrence defines; the reciprocal under that exact condition |
| `RsaReciprocal.InitState` | src/kernel/rsa/rsa.c:254-266 | the state is valid for the reduction under the same exact condition |
| `RedBlackTree.RbTree.Rotate` | src/kernel/tree/rb_tree.c:34-50 | the links spell out the rotated tree in the same place, with the same items in order |
| `RedBlackTree.RbTree.InsertFixup` | src/kernel/tree/rb_tree.c:95-118 | from one red-red edge the loop ends with a valid tree, possibly with a red root, and the same items |
| `RedBlackTree.RbTree.LookupOrInsert` | src/kernel/tree/rb_tree.c:70-121 | a present key returns the argument and changes nothing; a fresh key keeps validity and adds exactly the node |
| `RedBlackTree.RbTree.Lookup` | src/kernel/tree/rb_tree.c:125-135 | finds the node with the key, or null exactly when there is none |
| `RedBlackTree.RbTree.LookupNear` | src/kernel/tree/rb_tree.c:139-191 | descending to a leaf position and climbing parents finds the nearest key on either side |
| `RedBlackTree.RbTree.LookupDecreasing` | src/kernel/tree/rb_tree.c:139-163 | the greatest key of at most k, null exactly when none |
| `RedBlackTree.RbTree.LookupIncreasing` | src/kernel/tree/rb_tree.c:167-191 | the least key of at least k, null exactly when none |
| `RedBlackTree.RbTree.IterStart` | src/kernel/tree/rb_tree.c:299-308 | the least node, null exactly for the empty tree |
| `RedBlackTree.RbTree.IterNext` | src/kernel/tree/rb_tree.c:312-326 | the in-order successor, null exactly after the last |
| `RedBlackTree.RbTree.ExchangeWithSuccessor` | src/kernel/tree/rb_tree.c:198-232 | node and in-order successor trade places and colours, adjacent or not, and everything else stays |
| `RedBlackTree.RbTree.SpliceOut` | src/kernel/tree/rb_tree.c:233-253 | a node with at most one child is replaced by that child |
| `RedBlackTree.RbTree.RemoveFixup` | src/kernel/tree/rb_tree.c:254-292 | from a subtree one black short the loop terminates with a valid tree of the same items, on every shape |
| `RedBlackTree.RbTree.Remove` | src/kernel/tree/rb_tree.c:195-295 | the tree stays valid and holds exactly the other items |
| `CompressorSearch.BuildTable` | src/common/compressor/compressor.c:84-95 | every entry is the longest border that a mismatch can fall back to |
| `CompressorSearch.Search` | src/common/compressor/compressor.c:96-119 | finds the same length as brute force over all window starts at distance 8 or more, with the distance of the first start that attains it, and terminates |
| `Compressor.FindMatch` | src/common/compressor/compressor.c:75-124 | the first longest match among the preprocessed bytes, continued until a byte differs, the data ends or the 13 bits are full |
| `CompressorGreedy.UnmatchedIff` | src/common/compressor/compressor.c:125-133 | the match is too short to be emitted if and only if no four bytes of the window at distance 8 or more are the next four |
| `CompressorGreedy.MatchUnique` | src/common/compressor/compressor.c:96-124 | there is only one such match at an offset |
| `CompressorGreedy.GreedyUnique` | src/common/compressor/compressor.c:72-147 | there is only one greedy parse of any input |
| `Compressor.Store` | src/common/compressor/compressor.c:49-60 | the uncompressed level emits literal runs that stand for the input, all full but the last |
| `Compressor.CompressWith` | src/common/compressor/compressor.c:72-147 | the tokens are the greedy parse of the input: every copy is the match at its place, no literal byte has a match of four bytes, and only a full literal run is followed by another |
| `Compressor.Compress` | src/common/compressor/compressor.c:48-153 | at every level the output encodes well-formed tokens that expand to the input; they are the greedy parse for a window and preprocessed length of 31 (fast) or 1023 (full), and full literal runs without compression |
| `Compressor.StreamUnique` | src/common/compressor/compressor.c:72-147 | so the stream of an input is determined, byte for byte, by window and preprocessed length |
| `Compressor.ZeroBytes` | src/common/compressor/compressor.c:72-147 | sixty-four zero bytes become twelve: a run of eight and a copy of 56 from eight bytes back |
| `Compressor.CopyChunk` | src/common/compressor/decompressor.asm:34-55 | unaligned and aligned 8-byte copies, overlapping at distance 8 or more, leave the chunk equal to its source |
| `Compressor.DecodeToken` | src/common/compressor/decompressor.asm:17-74 | one header is decoded back to its token and applied |
| `Compressor.Decompress` | src/common/compressor/decompressor.asm:6-59 | the output is what the stream stands for, and nothing past its seven slack bytes is touched |
| `Compressor.RoundTrip` | src/common/compressor/compressor.c:48-153 | for every input and level, compressing and decompressing gives back the input |
| `BuddyBlocks.ClassOf` | src/kernel/memory/pmm.c:312 | the smallest class that holds the pages |
| `BuddyBlocks.RangeClass` | src/kernel/memory/pmm.c:125-137 | the block is aligned, fits the rest of the range, and no larger one would, below the top class |
| `BuddyBlocks.MergeSplit` | src/kernel/memory/pmm.c:365-373 | merging undoes splitting |
| `BuddyBlocks.SplitTiling` | src/kernel/memory/pmm.c:365-373 | splitting keeps the blocks an aligned tiling of the registered pages |
| `BuddyBlocks.MergeTiling` | src/kernel/memory/pmm.c:452-480 | so does merging with the buddy |
| `BuddyBlocks.TakenCoalesced` | src/kernel/memory/pmm.c:347-373 | an allocation leaves no two free buddies if there were none |
| `BuddyBlocks.FreedCoalesced` | src/kernel/memory/pmm.c:452-490 | a free keeps the tiling, and leaves no two free buddies if there were none |
| `BuddyBlocks.TakenThenFreed` | src/kernel/memory/pmm.c:347-490 | an allocation and its free restore exactly the previous blocks if and only if the block taken had no free buddy of its size |
| `BuddyBlocks.TouchingRanges` | src/kernel/memory/pmm.c:114-150 | two touching ranges of one page whose registration leaves free buddies, so that allocating and freeing does not restore |
| `BuddyPages.TakenPages` | src/kernel/memory/pmm.c:347-373 | halving a free block down takes exactly the pages of the result from the free ones |
| `BuddyPages.FreedPages` | src/kernel/memory/pmm.c:452-490 | merging all the way up gives back exactly the pages of the block |
| `BuddyPages.FreedUse` | src/kernel/memory/pmm.c:452-490 | and changes no other block in use |
| `BuddyPages.LowIff` | src/kernel/memory/pmm.c:328-329 | the blocks of the first four regions are exactly those that end below 1 GiB |
| `BuddyAllocator.Pmm.PopHead` | src/kernel/memory/pmm.c:348-363 | the head leaves its list, and links, bitmap, indices and tags still agree |
| `BuddyAllocator.Pmm.Unlink` | src/kernel/memory/pmm.c:461-478 | a free block leaves the middle of its list, and everything still agrees |
| `BuddyAllocator.Pmm.SplitOff` | src/kernel/memory/pmm.c:366-372 | the upper half becomes the only block of its empty bucket, and everything still agrees |
| `BuddyAllocator.Pmm.LowestBit` | src/kernel/memory/pmm.c:347 | the smallest sufficient bucket that is not empty |
| `BuddyAllocator.Pmm.Select` | src/kernel/memory/pmm.c:316-345 | the first region in turn that can serve the class; with the hint it is folded below four and the first from there, going around, is taken; fails only if none of those can serve |
| `BuddyAllocator.Pmm.Alloc` | src/kernel/memory/pmm.c:304-375 | succeeds exactly for 1 to 2^15 pages when some free block suffices, with the hint one that ends below 1 GiB; exactly the pages of the result stop being free and exactly its block joins those in use; it comes from the smallest sufficient bucket of the region in turn, and descriptors, lists, bitmap and tags agree with the new tiling |
| `BuddyAllocator.Pmm.Release` | src/kernel/memory/pmm.c:450-490 | the loop merges exactly as long as the buddy is free and of equal size |
| `BuddyAllocator.Pmm.Dealloc` | src/kernel/memory/pmm.c:430-493 | exactly the pages of the block become free and exactly that block leaves those in use; it ends up coalesced, and everything agrees with the new tiling |
| `BuddyBlocks.NextOfRange` | src/kernel/memory/pmm.c:123-149 | the next block of a range has a free buddy exactly when one was there before the range: the blocks of one range are never buddies |
| `BuddyBlocks.ClearEdges` | src/kernel/memory/pmm.c:114-150 | a range that touches registered pages only at multiples of the largest block meets no free buddy |
| `BuddyAllocator.Pmm.AddRange` | src/kernel/memory/pmm.c:114-150 | exactly the pages of the range become free and old blocks stay; no free buddies arise if and only if neither the first nor the last new block meets one outside the range |
| `BuddyAllocator.TagTells` | src/kernel/memory/pmm.c:453-459 | the buddy's class index decides merging, and the boundary tag never prevents a possible merge |
| `BuddyAllocator.ServeIff` | src/kernel/memory/pmm.c:326-347 | the bitmap says a region can serve exactly when it has a free block of sufficient class |
| `BuddyAllocator.SuitsIff` | src/kernel/memory/pmm.c:326-345 | a permitted region can serve a request exactly when some free block suits it |
| `PageTables.WalkFrame` | src/kernel/memory/vmm.c:325-360 | a walk that does not pass a slot does not depend on it |
| `PageTables.PutWalk` | src/kernel/memory/vmm.c:246-269 | writing a leaf changes exactly the translations of its page |
| `PageTables.HookedWalk` | src/kernel/memory/vmm.c:78-90 | a new empty table changes no translation |
| `PageTables.DroppedWalk` | src/kernel/memory/vmm.c:31-42 | giving an empty table back changes no translation |
| `PageTables.CounterFits` | src/kernel/memory/vmm.c:31-50 | no counter overflows its 11 bits |
| `PageTables.AllReturned` | src/kernel/memory/vmm.c:31-42 | when nothing is mapped, no table but the top one is left |
| `PageTables.Restored` | src/kernel/memory/vmm.c:31-90 | two states of a map whose tables lie in the same places and that translate alike have the same tables, entries and counters |
| `PageMap.Pagemap.Increase` | src/kernel/memory/vmm.c:46-50 | adds one to a table's counter, and to nothing else |
| `PageMap.Pagemap.Child` | src/kernel/memory/vmm.c:78-90 | the child table, created and counted if absent, with every translation unchanged |
| `PageMap.Pagemap.Decrease` | src/kernel/memory/vmm.c:31-42 | the counter falls by one, and a table that becomes empty is given back |
| `PageMap.Pagemap.Map` | src/kernel/memory/vmm.c:229-271 | refuses exactly misalignment and a place with something present; otherwise the addresses of the page, and no others, find an entry with the frame cut to 36 bits, the flags and the present bit given; the counters stay right if and only if the entry is not zero |
| `PageMap.ZeroOver` | src/kernel/memory/vmm.c:54-58 | a zero entry leaves its table's counter one too many |
| `PageMap.ZeroEntryMiscounts` | src/kernel/memory/vmm.c:264-269 | a zero entry for the first page of an empty map is accepted and breaks the counters |
| `PageMap.LargerPageIsNoTable` | src/kernel/memory/vmm.c:246-268 | inside a larger page, the slot that mapping would follow to a table holds that page, and no table is there |
| `PageMap.Pagemap.MapThenUnmap` | src/kernel/memory/vmm.c:229-304 | mapping and unmapping returns the frame, flags and present bit given, and restores every table, counter and translation if and only if nothing was mapped there, not even a page that is not present |
| `PageMap.Pagemap.Unmap` | src/kernel/memory/vmm.c:123-172 | the page that starts at the address, of any size, is unmapped and nothing else; counters stay right and empty tables go |
| `PageMap.Pagemap.Translate` | src/kernel/memory/vmm.c:325-360 | the byte address the tables define; 0 exactly when nothing is mapped or for the first byte of frame 0 |
| `PageAddresses.SamePage` | src/kernel/memory/vmm.c:230-233 | two addresses share the indices of a page size exactly when they lie in the same 4 KiB, 2 MiB or 1 GiB |
| `PageAddresses.WithinPage` | src/kernel/memory/vmm.c:337-356 | the indices below a page and the offset are the address modulo the page size |
| `PageAddresses.MapPage` | src/kernel/memory/vmm.c:229-271 | in bytes: succeeds exactly for two addresses that are multiples of the page size and a place with nothing present; then every address of the page translates to the physical address at its own distance, and every other address as before |
| `PageAddresses.UnmapPage` | src/kernel/memory/vmm.c:296-304 | in bytes: exactly the addresses of the page that starts there lose their translation; otherwise nothing happens |
| `PageAddresses.TranslateAddress` | src/kernel/memory/vmm.c:325-360 | the translation that the two members above are about |
| `PageAddresses.MapThenTranslate` | src/kernel/memory/vmm.c:229-360 | an address of a page just mapped translates to the physical address plus its distance from the start, and unmapping returns the entry |
| `PageAddresses.SecondPage` | src/kernel/memory/vmm.c:229-360 | 0x1234 translates to 0x5234 once 0x1000 is mapped to 0x5000 |
| `CoverageSolver.Solver.Seed` | src/_build/coverage.py:158-173 | the counters land on their arcs, and the remaining-arc counts are right |
| `CoverageSolver.SolveBlockInv` | src/_build/coverage.py:184-197 | a block with a complete side gets the flow's count |
| `CoverageSolver.SolveNextInv` | src/_build/coverage.py:206-221 | the last unknown arc out of a solved block gets the flow's count, and the worklists stay complete |
| `CoverageSolver.SolvePrevInv` | src/_build/coverage.py:222-237 | the last unknown arc into a solved block likewise |
| `CoverageSolver.SolvedArcOutside` | src/_build/coverage.py:206-237 | an arc the solver solves lies in no core of the uncounted arcs |
| `CoverageSolver.FixpointGreatestCore` | src/_build/coverage.py:174-237 | the arcs left unknown are the largest core of the uncounted arcs |
| `CoverageSolver.FixpointSolved` | src/_build/coverage.py:174-240 | the solved blocks are exactly those with a side that the core does not touch |
| `CoverageForest.ForestIff` | src/_build/coverage.py:174-237 | the uncounted arcs have no core if and only if they are a forest with entry and exit apart |
| `CoverageSolver.Solver.SolveBlocks` | src/_build/coverage.py:176-197 | the first phase empties its worklist, keeps the invariant, and makes progress if it did anything |
| `CoverageSolver.Solver.SolveArcs` | src/_build/coverage.py:198-237 | so does the second phase |
| `CoverageSolver.Solver.Solve` | src/_build/coverage.py:156-240 | terminates; every count found is the flow's; all arcs are recovered if and only if the uncounted arcs are such a forest; the graph is reported unsolved exactly when some block is left |
| `BitmapLevels.AndFlips` | src/common/kfs2/bitmap.c:70 | masking a word with its predecessor clears exactly its lowest set bit |
| `BitmapLevels.FlippedSummary` | src/common/kfs2/bitmap.c:69-95 | mending one bit leaves at most the bit above it wrong |
| `BitmapLevels.FirstWordBelow` | src/common/kfs2/bitmap.c:63-67 | the first set bit of a summary points at the first non-zero word below |
| `BitmapLevels.SeenAtTop` | src/common/kfs2/bitmap.c:86-98 | a set bit is seen at the top, at or before every word on the way up |
| `BitmapAllocator.StoreKeeps` | src/common/kfs2/bitmap.c:9-13 | writing a word through keeps all levels on disk and all caches right |
| `BitmapAllocator.CursorStays` | src/common/kfs2/bitmap.c:90-98 | on the early exit the cursor is never too high |
| `BitmapAllocator.Bitmap.Fetch` | src/common/kfs2/bitmap.c:17-26 | returns the word on disk and caches its block |
| `BitmapAllocator.Bitmap.FindTop` | src/common/kfs2/bitmap.c:30-32 | the cursor moves to the first non-zero top word |
| `BitmapAllocator.Bitmap.Alloc` | src/common/kfs2/bitmap.c:57-81 | removes exactly the smallest free index; a full bitmap yields 0 and stays; summaries, disk, caches and cursor agree, and the rest of the disk is untouched |
| `BitmapAllocator.Bitmap.Dealloc` | src/common/kfs2/bitmap.c:85-99 | adds exactly the index; summaries, disk, caches and cursor agree, and the rest of the disk is untouched |
| `BitmapAllocator.FreeOnDisk` | src/common/kfs2/bitmap.c:57-99 | index x is free exactly when bit x mod 64 of word x / 64 mod 512 in block x / 32768 of the lowest level is set on the disk |
| `BitmapAllocator.SummaryOnDisk` | src/common/kfs2/bitmap.c:57-99 | and a bit of a higher level exactly when its word of the level below is not zero there |
| `ResourceManager.FlipInv` | src/kernel/resource/resource.c:75-172 | changing one identifier's kind, with the merges and cuts this takes, keeps the alternating partition and changes that identifier alone |
| `ResourceManager.Manager.Create` | src/kernel/resource/resource.c:26-44 | nothing for an empty or single range, otherwise all identifiers of the range free |
| `ResourceManager.Manager.Alloc` | src/kernel/resource/resource.c:60-99 | takes the least free identifier, 0 exactly when there is none |
| `ResourceManager.Manager.Dealloc` | src/kernel/resource/resource.c:103-173 | succeeds exactly on used identifiers and frees that one; the partition survives if and only if it is not 2^64 - 1 with a free predecessor |
| `ResourceManager.LastIdentifierLost` | src/kernel/resource/resource.c:113-143 | the last two identifiers taken and given back in order leave no partition |
| `ResourceManager.Manager.IsUsed` | src/kernel/resource/resource.c:177-183 | right within the range, false below it, the last identifier's answer above it |
| `MemoryMap.PopGroups` | src/kernel/mmap/mmap.c:43-60 | after a removal both indexes still hold the same free regions and no group is empty |
| `MemoryMap.PushGroups` | src/kernel/mmap/mmap.c:80-96 | after an insertion likewise |
| `MemoryMap.Mmap.PushFree` | src/kernel/mmap/mmap.c:64-97 | joins the free region before, moves the heap or files a region; the tiling is kept |
| `MemoryMap.Mmap.Alloc` | src/kernel/mmap/mmap.c:190-243 | the start of a shortest sufficient free region, the latest filed, else fresh space below the heap; no two regions overlap and nothing meets the 16 KiB below a stack; with no such region it refuses exactly for lack of room, and the heap stays above the break address, if and only if the 64-bit sum does not wrap |
| `MemoryMap.ModuleRequestWraps` | src/kernel/mmap/mmap.c:215-220 | the module loader's map grants a request of its whole window and ends below its break address |
| `MemoryMap.Mmap.Dealloc` | src/kernel/mmap/mmap.c:247-263 | reports exactly that no region holds the address, frees exactly a whole region with its guard, refuses a part; nothing overlaps and stacks stay guarded |
| `MemoryMap.Mmap.Lookup` | src/kernel/mmap/mmap.c:275-286 | the region that holds the address if and only if one does |
| `MemoryMap.GuardedStacks` | src/kernel/mmap/mmap.c:200-228 | in every tiled map regions and free regions are disjoint and above the heap, and none of them meets the 16 KiB below a stack |
| `MemoryMap.LookupInGuard` | src/kernel/mmap/mmap.c:275-286 | looking up an address in those 16 KiB finds nothing |
| `MemoryMap.RegionBelowStack` | src/kernel/mmap/mmap.c:200-228 | a region allocated after a stack of 16 KiB ends 16 KiB below it |
| `MemoryTiles.Covered` | src/kernel/mmap/mmap.c:190-286 | every address from the heap to the top lies in a tile |
| `InitramfsImage.RecordedLength` | src/_build/initramfs.py:17-70 | the recorded size of a node is the number of bytes written for it if and only if no file in its tree is within seven bytes of 4 GiB |
| `InitramfsImage.MaskedWraps` | src/_build/initramfs.py:24 | a file that near 4 GiB is recorded with the size of its head |
| `InitramfsImage.LittleByte` | src/_build/initramfs.py:57 | byte i of a field is its digit of weight 256^i |
| `InitramfsImage.NodeBytes` | src/_build/initramfs.py:57-64 | where size, data size, child count, flags, name length and name lie in the bytes of a node |
| `InitramfsImage.ImageBytes` | src/_build/initramfs.py:80-82 | the image starts with the eight bytes of INITFS and the identifier, then the root, padded with zeros to a multiple of 4096 bytes |
| `InitramfsImage.ChildHeld` | src/_build/initramfs.py:56-70 | stepping over recorded sizes leads to the bytes of each child |
| `InitramfsReader.FieldsHeld` | src/kernel/initramfs/fs.c:28-35 | the reader's fields are what the writer wrote |
| `InitramfsReader.Lookup` | src/kernel/initramfs/fs.c:80-117 | finds the first child with the name and describes it, none exactly when there is none or the node is a file |
| `InitramfsReader.Iterate` | src/kernel/initramfs/fs.c:121-140 | one step yields the next child's name and offset; 0 exactly at the end, or when the directory's end wraps in 32 bits |
| `InitramfsReader.List` | src/kernel/initramfs/fs.c:121-140 | a directory with children is listed in full, each name once and in order, if and only if it ends below 4 GiB |
| `InitramfsReader.BoundaryListing` | src/kernel/initramfs/fs.c:130-132 | a directory that ends exactly at 4 GiB has a file that can be looked up, and lists nothing |
| `InitramfsReader.Read` | src/kernel/initramfs/fs.c:144-157 | returns the requested part of the contents, cut at their end, if and only if offset and size do not wrap in 64 bits and the cut request fits a buffer of 128 MiB |
| `InitramfsReader.LargeRead` | src/kernel/drive/drive.c:72-87 | a file of 128 MiB and a word read at once panics |
| `InitramfsReader.WrappingRead` | src/kernel/initramfs/fs.c:150-156 | a read of 2^64 - 1 bytes from offset 1 panics |
| `InitramfsReader.ReadWhole` | src/kernel/initramfs/fs.c:144-157 | reading in pieces of a buffer gives the contents of any file |
| `InitramfsReader.Load` | src/kernel/initramfs/fs.c:186-214 | fails exactly on a partition that does not start at 0, another drive type or block size, a short image or a wrong signature; otherwise describes the root |
| `InitramfsReader.Open` | src/kernel/initramfs/fs.c:80-117 | following a path finds exactly the node the tree has there |
| `InitramfsReader.RoundTrip` | src/_build/initramfs.py:56-82 | for every tree and path, the written image read back in pieces yields that node's contents, and its names if it ends below 4 GiB, or nothing if the tree has nothing |

## Left out

- Locks, atomics and interrupt masking: each locked section is one step.
- RsaReciprocal.CalculateMu: after a harmful step the condition compares the remaining digits with those of the true remainder; no simpler condition on the modulus is given. A modulus of one limb is excluded, for which the original reads below its buffer.
- RsaReciprocal.InitState: takes the modulus as a normalised number; copying it from bytes and masking its top bits are not modelled.
- RsaProcess.Process: panics are a false result; the operands must not share storage with the key.
- RsaNumbers.Subtract: the result replaces the first operand, as in every call of the original, and that has at least one limb.
- Parent and colour of a tree node, and the four fields of a page descriptor, are packed words in the original and separate fields here; a page-table entry is a datatype.
- RedBlackTree.RbTree.LookupDecreasing: the branch that looks for the right-most node of a left subtree after a leaf position is never reached and is not modelled; the same holds of its mirror image.
- Compressor.Decompress: the stream and the output need seven accessible bytes after their ends, which the 8-byte copies may read and write.
- BuddyAllocator.Pmm.Alloc: some region must be able to serve the class, since the first selection loop has no other exit; page clearing, cookies and statistics are not modelled, and bitmaps are sets.
- BuddyAllocator.Pmm.Dealloc: the caller gives back a block as it was allocated.
- BuddyBlocks.RangeClass: the second clamp to the top class is never taken and is not modelled.
- PageMap.Pagemap.Map: the place must not lie inside a larger page, whose frame the original would take for a table and write to; after a refusal (a panic) only the translations are stated. Flags are one number beside the present and large bits, and table pages lie within the address bits of an entry.
- PageMap.Pagemap.MapThenUnmap: the entry must not be zero, since unmapping starts from right counters; the same holds of PageAddresses.MapThenTranslate.
- PageAddresses.MapPage: the place must not lie inside a larger page, as for PageMap.Pagemap.Map.
- RsaSignature.ThereAndBack: that the exponents of a key fix every residue is assumed of the key, not derived from its primes.
- Kernel-half tables shared between page maps, flag changes on existing entries, and deleting a whole page map.
- CoverageSolver.Solver.Solve: the counters are those of some flow that is conserved at inner blocks; parsing of the note and counter files and the report are not modelled, and worklists are sets.
- BitmapAllocator.Bitmap.Alloc: disk errors, which panic, are not modelled; formatting is replaced by summaries that agree at the start.
- ResourceManager.Manager.Dealloc: nothing is stated about later operations once the partition is lost; deleting a manager is not modelled.
- MemoryMap.Mmap.Alloc: allocations after the heap has passed the break address are not stated; addresses chosen by the caller, file backing, commitment of pages and page faults are not modelled; the trees and linked groups are maps and sequences.
- InitramfsReader.RoundTrip: no file is within seven bytes of 4 GiB, and the root is not recorded with the largest size of 2^32 - 8, where an offset could reach 4 GiB and wrap; building the node tree from a list of paths is not modelled.
- AES, SHA-256, string and formatting helpers: tables or easier members.
- Scheduling, timers, events, rings, drivers, ACPI, PCI, USB, UEFI, FAT32, system calls and the build drivers: input/output and asynchronous hardware.
