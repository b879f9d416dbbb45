# Verified models of the LFI runtime, verifiers and tools

This project models the parts of the repository whose correctness is hard to see, and proves what they
promise. `dafny verify dfyconfig.toml` checks all of it.

**The buddy allocator** (`decl-gh-runtime/liblfi/buddy.h`) packs a complete binary tree of "how busy is this
subtree" counters in unary into one bitset. The proof has four layers. Bytes and masks
(`ByteBits`, `BuddyBitset`) implement a sequence of bits. The layout (`TreeLayout`) gives every node its
own bits. The class `BuddyTree` keeps a tree of statuses in these bits; `StatusTree` says what marking,
releasing and searching mean on the statuses. `Arena`, `ArenaCalls` and `ArenaRuns` describe the allocator
on values and prove what every run keeps; `ArenaEffects` says of each call exactly which block it takes. The class
`Buddy` implements these calls, including the loops that mask the memory past the end, count the free space and
walk the blocks. `SlotEngine` models the client, `engine.c`, which cuts address spaces into sandbox slots.

**Gas metering on arm64.** `Metering` models the checker of `meter.c` and proves what acceptance means for every run,
however long: what was charged pays for what was executed. Its machine tells branches by their mnemonics, not as the
checker does; `MeterRules` states acceptance without the checker's terms. `Postlink` models the tool that writes the
charges, and proves that its output is accepted. `GasWords` and `Words` are the instruction encoding both share.

**Bundles on amd64.** `Bundles` models the checker that cuts code into bundles, instructions and macro-instructions;
`BundleForms` says which code it has to accept, and what the forms of macro-instructions are. `BundleRuns` proves that
accepted code, run on a machine that only decodes and executes, never leaves the instructions the checker saw, if it
meets three conditions that the checker does not look at: on the width of one lea, on what happens to r13 and how it
is used, and on double shifts of r14. `BundleEscapes` and `ShiftEscapes` prove from runs that they are needed;
`BundleExamples` and `TableExamples` hold accepted programs that break one of them each.

**The undefined-flag analysis** (`flags.c`). `FlagFlow` proves the two passes over the block graph sound, and exact
where no edge leads backwards, against what the instructions executed do to each flag. `FlagGraph` models the graph
that the code builds, which is not the control-flow graph one would expect, says exactly when it is complete, and
proves the analysis sound for the code itself in that case. `FlagMisses` shows that a branch missing in the graph
hides reads. `FlagTables` holds the tables, and `FlagColumns` reads them by flag.

**The hash table** (`ht.c`): `Probing` is the theory of linear probing with rehashing on removal, and
`HashTable` the object, proved to be a finite map for every hash function.

**Path normalisation** (`cwalk.c`): `PathSegments` scans characters, `JoinedPaths` joins several paths and
counts, `PathResolve` shows that counting agrees with a stack, and `PathNormalize` writes the result.
`PathRules` says what the result is, from the text alone.

**The FSB hash** (`macros.rs`): `FsbBits`, `Fsb` and `FsbCompress` prove the byte-wise code against its
description in bits.

`PowersOfTwo`, `Products`, `Numbers` and `Options` are shared. Recursive functions of arithmetic carry an argument
`lazy` that nobody supplies; `PowersOfTwo` explains it.

## Where the code does not do what one expects

- `buddy_safe_free` can answer true without freeing anything, when the address belongs to a partly used
  node whose size fits the request (`ArenaRuns.SafeFreeExact`, `ArenaRuns.SafeFreeFalseSuccess`,
  `ArenaRuns.HalfUsedIsReached`).
- `buddy_reserve_range` counts slots from the size alone, so a range that begins inside a slot may not
  be covered to its end (`ArenaRuns.ReserveCovers`, `ArenaRuns.UnalignedReserveMissesBytes`). Nor does it
  look at the blocks in use: a larger block that overlaps the range is silently lost
  (`ArenaRuns.ReserveKeepsBlocksIff`; `ArenaRuns.ReserveLosesBlock` and `ArenaRuns.WholeIsReached` are an example).
- `ceiling_power_of_two` is exact up to 2^63 only (`PowersOfTwo.CeilingPowerOfTwo`).
- `lfi_maxprocs` counts a space of a single slot as -1 (`SlotEngine.Engine.MaxProcs`, `SlotEngine.OneSlotSpace`),
  so there may be more sandboxes than it says (`SlotEngine.ProcsWithinMaxIff`,
  `SlotEngine.MoreProcsThanMax`); and `lfi_addproc` keeps the slot when the
  sandbox memory cannot be set up (`SlotEngine.Engine.AddProc`).
- `subx23` encodes charges above 4095 * 4096 too small (`GasWords.ChargeCovers`, `GasWords.ChargeLost`,
  `Metering.LongSegmentOwes`, `Metering.LongStretchOwes`).
- `gasupdate` looks at register operands only. Where loads are not confined, a load whose address register
  is x23 and is written back changes the gas without a charge (`Metering.RegisterPaysIff`,
  `Metering.WriteBackIsAccepted`).
- `macroinst_rtcall` looks at the register of the lea that holds the return address, but not at its width. A
  16-bit lea leaves the rest of r11 to the program, a 32-bit one cuts the address; in code larger than
  64 KiB or 4 GiB such a call may return into the middle of an instruction (`BundleEscapes.ReturnsWellIff`,
  `BundleEscapes.ReturnOkIff`, `BundleExamples.NarrowReturnEscapes`).
- `macroinst_shxd` does not look at the register that a double shift changes, and macro-instructions skip the
  register checks. A shld or shrd of r14 is accepted; unless its count makes it do nothing, the base is no longer
  aligned afterwards, and a masked jump behind it may go into the middle of an instruction
  (`ShiftEscapes.HarmlessIff`, `ShiftEscapes.ShiftedJumpStrays`, `ShiftEscapes.ShiftedJumpEscapes`,
  `BundleExamples.ShiftedBaseEscapes`).
- A runtime call jumps to a word that r13 points near, and nothing makes sure that this is an entry of the table.
  Double shifts and masked branches may change r13 (`ShiftEscapes.TableShiftIff`,
  `ShiftEscapes.ShiftedCallEscapes`, `BundleEscapes.MaskedTableEscapes`, `TableExamples.ShiftedTableEscapes`,
  `TableExamples.MaskedTableIsAccepted`), and with neither of the options `decl` and `poc` any instruction may
  (`BundleEscapes.UnreservedEscapes`, `TableExamples.UnreservedIsAccepted`). `okdisp` lets negative displacements
  pass, and those of the 28 entries that `syssetup` does not fill; `macroinst_rtcall` looks at no prefixes
  (`BundleEscapes.NoEntryEscapes`, `TableExamples.NoEntryIsAccepted`). In all these cases the call may go to any
  address.
- `macroinst_modsp` and the macro-instructions of stos and movs look at the width of the register that their lea
  writes, but not at an address-size prefix. Such a lea leaves 32 bits only, and the pointer outside the sandbox
  (`BundleForms.StackStaysIff`, `BundleForms.PointerStaysIff`).
- `analyzecfg` fills its table without advancing the address. Most branch targets are not found and their
  edges are missing; a target that is found is taken for the last instruction
  (`FlagGraph.FillTable`, `FlagGraph.TargetEdgeIff`, `FlagGraph.GraphIsCompleteIff`,
  `FlagGraph.MissingEdgeHidesRead`, `FlagGraph.WrongEdgeHidesRead`, `FlagMisses.UnkeptHidesRead`).
  The comment on the first pass says that all flags but DF start out undefined; NT does not either.
- `pow2ceil` does not end for hints above 2^63 (`HashTableClass.DoublingReachesIff`).
- A path without any segment normalises to its root, even if that is empty; the comment speaks of "/".

## Model

| member | source | states |
|---|---|---|
| PowersOfTwo.HighestBitPosition | decl-gh-runtime/liblfi/buddy.h:1880-1900 | the table-driven scan returns the position of the highest set bit, for every 64-bit value |
| PowersOfTwo.CeilingPowerOfTwo | decl-gh-runtime/liblfi/buddy.h:1902-1905 | with 64-bit wrap-around the result is the least power of two that is at least the value exactly when the value is at most 2^63 |
| ByteBits.CharMaskBit | decl-gh-runtime/liblfi/buddy.h:1756-1765 | every entry of the mask table is the set of bits lo..hi |
| BuddyBitset.BitsetClearRange | decl-gh-runtime/liblfi/buddy.h:1767-1783 | clears exactly the bits of the range, byte masks and whole bytes together |
| BuddyBitset.BitsetSetRange | decl-gh-runtime/liblfi/buddy.h:1785-1801 | sets exactly the bits of the range |
| BuddyBitset.BitsetCountRange | decl-gh-runtime/liblfi/buddy.h:1803-1822 | returns the number of set bits in the range, over partial and whole bytes |
| BuddyBitset.Bitset.ClearRange | decl-gh-runtime/liblfi/buddy.h:1767-1783 | the same on the sequence of bits the class represents |
| BuddyBitset.Bitset.SetRange | decl-gh-runtime/liblfi/buddy.h:1785-1801 | the same on the sequence of bits the class represents |
| BuddyBitset.Bitset.CountRange | decl-gh-runtime/liblfi/buddy.h:1803-1822 | the same on the sequence of bits the class represents |
| BuddyBitset.UnaryCount | decl-gh-runtime/liblfi/buddy.h:1474-1479 | counting a prefix of a unary field gives the number it holds, if that fits the prefix |
| TreeLayout.FieldsInOrder | decl-gh-runtime/liblfi/buddy.h:1228-1250 | no two status fields overlap |
| TreeLayout.FieldOfBit | decl-gh-runtime/liblfi/buddy.h:1217-1250 | every bit of the tree belongs to the field of some node: the fields tile it |
| TreeLayout.RowStart | decl-gh-runtime/liblfi/buddy.h:1228-1250 | the fields of one row are spaced by their common width |
| TreeLayout.SizeForOrder | decl-gh-runtime/liblfi/buddy.h:1217-1226 | the loop returns where the fields of narrower rows begin |
| TreeLayout.FieldOfPos | decl-gh-runtime/liblfi/buddy.h:1228-1250 | the position computed from depth, index in the row and memo table is where the node's field begins |
| TreeLayout.MemoBehindBitset | decl-gh-runtime/liblfi/buddy.h:1252-1264 | the memo table lies behind every byte of the bitset and within the size reserved for the tree |
| BuddyTreeClass.BuddyTree.constructor | decl-gh-runtime/liblfi/buddy.h:1266-1274 | a fresh tree encodes status zero everywhere |
| BuddyTreeClass.BuddyTree.PopulateSizeForOrder | decl-gh-runtime/liblfi/buddy.h:1448-1458 | the memo table holds the sizes of all orders |
| BuddyTreeClass.BuddyTree.InternalPosition | decl-gh-runtime/liblfi/buddy.h:1240-1250 | returns the width and start of the node's field |
| BuddyTreeClass.BuddyTree.WriteToInternalPosition | decl-gh-runtime/liblfi/buddy.h:1465-1472 | changes the status of this node and of no other |
| BuddyTreeClass.FieldWritten | decl-gh-runtime/liblfi/buddy.h:1465-1472 | a write to one field keeps the encoding of all other nodes |
| BuddyTreeClass.BuddyTree.ReadFromInternalPosition | decl-gh-runtime/liblfi/buddy.h:1474-1479 | counts the set bits of the field, or of the prefix the caller asks for |
| BuddyTreeClass.FieldRead | decl-gh-runtime/liblfi/buddy.h:1474-1479 | what is counted in a whole field is the status of the node |
| BuddyTreeClass.PrefixRead | decl-gh-runtime/liblfi/buddy.h:1474-1479 | a shortened read is still exact when the status fits it |
| BuddyTreeClass.BuddyTree.CompareWithInternalPosition | decl-gh-runtime/liblfi/buddy.h:1481-1483 | the single-bit probe decides whether the status is at least the value |
| BuddyTreeClass.BuddyTree.Status | decl-gh-runtime/liblfi/buddy.h:1537-1540 | returns the status of the node |
| BuddyTreeClass.SameStatusSameBits | decl-gh-runtime/liblfi/buddy.h:1465-1479 | the statuses determine every bit of the tree |
| StatusTree.StatusAtMostMax | decl-gh-runtime/liblfi/buddy.h:1693-1725 | in a tree that keeps the invariant no status exceeds the maximum of its row |
| StatusTree.SameLiveSameTree | decl-gh-runtime/liblfi/buddy.h:1693-1725 | a tree that keeps the invariant is determined by the nodes handed out |
| StatusTree.RepairOk | decl-gh-runtime/liblfi/buddy.h:1568-1591 | recomputing the ancestors restores the invariant at every node |
| StatusTree.RepairStops | decl-gh-runtime/liblfi/buddy.h:1568-1591 | once a recomputed status equals the stored one the rest of the walk would change nothing |
| BuddyTreeClass.BuddyTree.UpdateParentChain | decl-gh-runtime/liblfi/buddy.h:1568-1591 | the walk with its early exit leaves what recomputing all ancestors leaves |
| StatusTree.MarkFree | decl-gh-runtime/liblfi/buddy.h:1542-1551 | mark of a free node keeps the invariant at every node and hands out exactly that node |
| StatusTree.MarkAgain | decl-gh-runtime/liblfi/buddy.h:1542-1551 | marking a node that is handed out already changes nothing |
| StatusTree.MarkLeaf | decl-gh-runtime/liblfi/buddy.h:1542-1551 | marking a leaf keeps the invariant and hands it out whatever is above it; a larger node above it that was handed out is lost |
| StatusTree.BuriedClimbs | decl-gh-runtime/liblfi/buddy.h:1568-1591 | below a handed-out node the early exit cannot stop the walk before it has repaired that node |
| StatusTree.ReleaseLive | decl-gh-runtime/liblfi/buddy.h:1553-1566 | release of a handed-out node keeps the invariant, takes back exactly that node and leaves it free |
| StatusTree.ReleaseUndoesMark | decl-gh-runtime/liblfi/buddy.h:1542-1566 | mark and then release gives back the very same tree |
| StatusTree.MarkUndoesRelease | decl-gh-runtime/liblfi/buddy.h:1542-1566 | release and then mark gives back the very same tree |
| BuddyTreeClass.BuddyTree.Mark | decl-gh-runtime/liblfi/buddy.h:1542-1551 | the bits afterwards encode the marked tree |
| BuddyTreeClass.BuddyTree.Release | decl-gh-runtime/liblfi/buddy.h:1553-1566 | the bits afterwards encode the released tree; a node that is not full is left alone |
| StatusTree.FindFreeExact | decl-gh-runtime/liblfi/buddy.h:1593-1638 | the descent finds a free node of the wanted depth exactly when there is one |
| StatusTree.FindFreePrefers | decl-gh-runtime/liblfi/buddy.h:1593-1638 | against any other free node of that depth, where the ways to the two part the search went to the busier side, and to the left one if both are equally busy |
| BuddyTreeClass.BuddyTree.ChooseChild | decl-gh-runtime/liblfi/buddy.h:1605-1636 | two single-bit probes and one shortened read choose the child that comparing whole statuses chooses |
| BuddyTreeClass.BuddyTree.FindFree | decl-gh-runtime/liblfi/buddy.h:1593-1638 | the search on bits is the search on statuses |
| BuddyTreeClass.BuddyTree.Walk | decl-gh-runtime/liblfi/buddy.h:1515-1535 | one step of the stateful walk: the left child, or the next node behind the finished subtree |
| Arenas.OffsetIsLeaves | decl-gh-runtime/liblfi/buddy.h:959-963 | a block is exactly the bytes of its leaves |
| Arenas.LiveLeavesDisjoint | decl-gh-runtime/liblfi/buddy.h:1704-1714 | no two handed-out nodes have a leaf in common |
| Arenas.BlockInMemory | decl-gh-runtime/liblfi/buddy.h:1015-1058 | a block in a caller's hands ends within the memory |
| Arenas.ValidIsSafe | decl-gh-runtime/liblfi/buddy.h:651-687 | in a valid arena blocks lie in memory, are aligned to their power-of-two size and are pairwise disjoint |
| ArenaCalls.DepthForFits | decl-gh-runtime/liblfi/buddy.h:924-936 | the block size at the computed depth is the least power of two that holds the request |
| ArenaCalls.DepthForSizeFits | decl-gh-runtime/liblfi/buddy.h:924-940 | a request within the memory gets a depth of the tree whose blocks hold it and are less than twice as large |
| ArenaCalls.BlockIsFound | decl-gh-runtime/liblfi/buddy.h:959-1002 | looking up the address of a block gives back the block |
| ArenaCalls.FoundIs | decl-gh-runtime/liblfi/buddy.h:972-1002 | what a lookup finds begins at the address, and is a block or a node that is partly used |
| ArenaCalls.MallocFinds | decl-gh-runtime/liblfi/buddy.h:651-687 | malloc finds a free node that holds the request and is less than twice as large, and none exactly when no free node has the fitting depth |
| ArenaCalls.MallocGives | decl-gh-runtime/liblfi/buddy.h:651-687 | malloc hands out that node and nothing else changes hands; a failing call changes nothing |
| ArenaEffects.HalvesOfBlock | decl-gh-runtime/liblfi/buddy.h:938-963 | the block at the root is the whole memory rounded up, the two halves of a block have equal sizes that add up and lie side by side, and the smallest blocks are slots |
| ArenaEffects.MallocExact | decl-gh-runtime/liblfi/buddy.h:651-687 | malloc marks the free block of fitting size that is preferred to all others of its size, busier side first and then left, and answers null exactly if the request is larger than the memory or no free block has that size |
| ArenaCalls.FreeTakesBack | decl-gh-runtime/liblfi/buddy.h:783-810 | free takes back the block that begins at the address; any other address changes nothing |
| ArenaCalls.MarkValid | decl-gh-runtime/liblfi/buddy.h:1542-1551 | marking a free node keeps the arena valid |
| ArenaCalls.ReleaseValid | decl-gh-runtime/liblfi/buddy.h:1553-1566 | releasing a block keeps the arena valid |
| ArenaRuns.MarkTailOk | decl-gh-runtime/liblfi/buddy.h:1027-1057 | masking down the right spine hands out nodes that cover exactly the leaves of the tail |
| ArenaRuns.InitValid | decl-gh-runtime/liblfi/buddy.h:434-478 | the fresh arena is valid, holds back the leaves past the end of memory and has no block handed out |
| ArenaRuns.MarkLeavesValid | decl-gh-runtime/liblfi/buddy.h:1060-1098 | reserving leaves keeps the arena valid and hands out exactly those leaves; of the other blocks it takes away those that lie above one of them |
| ArenaEffects.ReserveTakes | decl-gh-runtime/liblfi/buddy.h:1060-1098 | a reservation within the memory hands out exactly the slots that its size calls for from the slot of its first byte on, takes away exactly the larger blocks that overlap them, and otherwise does nothing |
| ArenaRuns.ReserveKeepsBlocksIff | decl-gh-runtime/liblfi/buddy.h:1060-1098 | a reservation loses no block exactly if no larger block overlaps the range |
| ArenaRuns.ReserveLosesBlock | decl-gh-runtime/liblfi/buddy.h:1060-1098 | an arena of two slots in which a reservation of one loses the block of both |
| ArenaRuns.WholeIsReached | decl-gh-runtime/liblfi/buddy.h:651-687 | that arena is reached from a fresh one by one malloc |
| ArenaRuns.ReserveCovers | decl-gh-runtime/liblfi/buddy.h:1060-1098 | a reservation covers its last byte exactly if the range, measured from the start of its first slot, fits the slots its size calls for |
| ArenaRuns.AlignedReserveCovers | decl-gh-runtime/liblfi/buddy.h:1060-1098 | a range that begins at a slot is always covered |
| ArenaRuns.UnalignedReserveMissesBytes | decl-gh-runtime/liblfi/buddy.h:1060-1098 | a range that begins inside a slot may not be: an example |
| ArenaRuns.SafeFreeExact | decl-gh-runtime/liblfi/buddy.h:812-852 | for any address: a false answer changes nothing, and a true one takes something back exactly if a block begins there |
| ArenaEffects.SafeFreeIff | decl-gh-runtime/liblfi/buddy.h:812-852 | it answers true exactly if, of the nodes that begin at the address, the smallest one in use at all has a size that holds the request, and half of which does not |
| ArenaRuns.SafeFreeOfBlock | decl-gh-runtime/liblfi/buddy.h:812-852 | for the address of a block it answers true, and takes the block back, exactly if the size is more than half the block and fits it |
| ArenaRuns.SafeFreeOfSlot | decl-gh-runtime/liblfi/buddy.h:812-852 | for requests of at most one slot it answers true exactly if a single slot is in use at the address |
| ArenaRuns.SafeFreeFalseSuccess | decl-gh-runtime/liblfi/buddy.h:812-852 | a false success: an arena and a call that answers true and frees nothing |
| ArenaRuns.HalfUsedIsReached | decl-gh-runtime/liblfi/buddy.h:1060-1098 | the arena of that example is reached from a fresh one by one reservation |
| ArenaRuns.ReallocIs | decl-gh-runtime/liblfi/buddy.h:710-769 | realloc is free and malloc; when it fails the tree is what it was |
| ArenaRuns.ReallocGives | decl-gh-runtime/liblfi/buddy.h:710-769 | of a block, for every size: no size frees it, more than the memory is refused, and otherwise the old block is taken back and one that holds the request and less than twice as much is handed out, or nothing changes |
| ArenaRuns.MoveIsSafe | decl-gh-runtime/liblfi/buddy.h:710-769 | copying to the new place brings along the common part and touches no byte of another block, even if the places overlap |
| ArenaRuns.StepValid | decl-gh-runtime/liblfi/buddy.h:651-860 | each call, realloc and reservations over blocks included, keeps the arena valid |
| ArenaRuns.StepLedgerOk | decl-gh-runtime/liblfi/buddy.h:651-860 | each call keeps what is known of the sizes: every block that malloc or realloc handed out holds what was asked for and less than twice as much, and all others are single slots |
| ArenaRuns.RunsFromInitAreSafe | decl-gh-runtime/liblfi/buddy.h:434-860 | after every sequence of init, malloc, free, safe_free, realloc of blocks and reservations the blocks are disjoint, in memory, aligned to their size, and hold what was asked for and less than twice as much |
| BuddyClass.IsValidAlignment | decl-gh-runtime/liblfi/buddy.h:642-644 | true exactly for the powers of two |
| BuddyClass.OrderForMemory | decl-gh-runtime/liblfi/buddy.h:646-649 | the order is one more than the logarithm of the slots rounded up, exactly if there are at most 2^63 slots |
| BuddyClass.Init | decl-gh-runtime/liblfi/buddy.h:434-478 | answers null exactly in the cases the code refuses, and otherwise a fresh arena of the trimmed memory |
| BuddyClass.Buddy.constructor | decl-gh-runtime/liblfi/buddy.h:434-478 | builds the fresh arena, with the virtual slots masked |
| BuddyClass.Buddy.SizeForDepth | decl-gh-runtime/liblfi/buddy.h:938-940 | the size of blocks at that depth |
| BuddyClass.Buddy.EffectiveMemorySize | decl-gh-runtime/liblfi/buddy.h:946-948 | the power of two that the tree covers |
| BuddyClass.Buddy.ToggleVirtualSlots | decl-gh-runtime/liblfi/buddy.h:1015-1058 | the loop over bytes terminates and marks the tail of leaves past the end of memory |
| BuddyClass.Buddy.DepthForSize | decl-gh-runtime/liblfi/buddy.h:924-936 | the dividing loop computes the depth |
| BuddyClass.Buddy.AddressForPosition | decl-gh-runtime/liblfi/buddy.h:959-963 | the address is the start of the node's leaves |
| BuddyClass.Buddy.PositionForAddress | decl-gh-runtime/liblfi/buddy.h:972-1002 | the upward search gives the lookup on the tree |
| BuddyClass.Buddy.DeepestPosition | decl-gh-runtime/liblfi/buddy.h:965-970 | the leaf for an offset |
| BuddyClass.Buddy.Malloc | decl-gh-runtime/liblfi/buddy.h:651-687 | new state and answer are those of malloc on arenas, which `ArenaEffects.MallocExact` pins down |
| BuddyClass.Buddy.Free | decl-gh-runtime/liblfi/buddy.h:783-810 | a block that begins at the address is taken back, whole; anything else changes nothing |
| BuddyClass.Buddy.SafeFree | decl-gh-runtime/liblfi/buddy.h:812-852 | a block that begins at the address is taken back if it fits the size; the answer is that of safe_free on arenas, which `ArenaEffects.SafeFreeIff` pins down |
| BuddyClass.Buddy.ReserveRange | decl-gh-runtime/liblfi/buddy.h:1060-1098 | new state is that of the reservation on arenas, for every range, which `ArenaEffects.ReserveTakes` pins down |
| BuddyClass.Buddy.Memmove | decl-gh-runtime/liblfi/buddy.h:765-766 | copies as if all bytes were read first |
| BuddyClass.Buddy.Realloc | decl-gh-runtime/liblfi/buddy.h:710-769 | of a live block: new state and answer are those of realloc on arenas, the first bytes, as many as both blocks hold, are those of the old block at the new one, no other block's bytes change, and a failure changes no byte |
| BuddyClass.Buddy.IsFull | decl-gh-runtime/liblfi/buddy.h:603-613 | true exactly if no leaf is free |
| BuddyClass.Buddy.ArenaFreeSize | decl-gh-runtime/liblfi/buddy.h:622-640 | the walk terminates with alignment times the number of free leaves |
| TreeWalk.FreeLeavesCount | decl-gh-runtime/liblfi/buddy.h:622-640 | counting by settled nodes counts the free leaves |
| TreeWalk.MallocTakesRoom | decl-gh-runtime/liblfi/buddy.h:622-687 | malloc lowers the free size by exactly the size of the block |
| TreeWalk.FreeGivesRoom | decl-gh-runtime/liblfi/buddy.h:622-810 | free raises it by the size of the block |
| TreeWalk.EmptyArenaRoom | decl-gh-runtime/liblfi/buddy.h:622-640 | without blocks all of the memory is free |
| TreeWalk.FullIffNoRoom | decl-gh-runtime/liblfi/buddy.h:603-613 | the root carries its maximum exactly if no leaf is free |
| BuddyClass.Buddy.WalkBlocks | decl-gh-runtime/liblfi/buddy.h:862-922 | the walk terminates and reports every block exactly once by address, up to the first answer; the early return at a virtual slot skips none |
| TreeWalk.LiveListIs | decl-gh-runtime/liblfi/buddy.h:862-922 | the nodes met are handed out and listed by address |
| TreeWalk.LiveListComplete | decl-gh-runtime/liblfi/buddy.h:862-922 | no handed-out node is missed |
| TreeWalk.WalkEnds | decl-gh-runtime/liblfi/buddy.h:907-915 | behind the first virtual node there are only virtual ones |
| SlotEngine.AlignedRegion | decl-gh-runtime/liblfi/align.h:6-18 | the aligned part of a region begins at the least multiple of the slot size not before its start and ends at the greatest not behind its end |
| SlotEngine.FreshSpaceOk | decl-gh-runtime/liblfi/engine.c:115-149 | a new space has just its two guards taken |
| SlotEngine.FullIffAllUsed | decl-gh-runtime/liblfi/engine.c:185-206 | the tree of a space is full exactly if all slots between the guards are in use |
| SlotEngine.SlotGiven | decl-gh-runtime/liblfi/engine.c:196-206 | while a space is not full malloc of one slot succeeds, with a slot that is neither in use nor a guard |
| SlotEngine.SlotTakenBack | decl-gh-runtime/liblfi/engine.c:208-219 | giving back a slot in use succeeds and frees that slot only |
| SlotEngine.SlotsApart | decl-gh-runtime/liblfi/engine.c:115-149 | different slots, guards included, have disjoint memory |
| SlotEngine.SlotAligned | decl-gh-runtime/liblfi/engine.c:196-206 | slots are aligned to the process size |
| SlotEngine.TotalWithinCapacity | decl-gh-runtime/liblfi/engine.c:62-82 | there are never more sandboxes than slots for them, and as many exactly if all spaces are full |
| SlotEngine.Engine.AddSpace | decl-gh-runtime/liblfi/engine.c:115-149 | adds a guarded space in exactly the cases that do not fail, and keeps all spaces valid |
| SlotEngine.Engine.IsFull | decl-gh-runtime/liblfi/engine.c:185-193 | true exactly if all spaces are full |
| SlotEngine.Engine.AllocSlot | decl-gh-runtime/liblfi/engine.c:195-206 | unless all spaces are full, the slot that malloc takes in the first space that is not full is handed out and counted, nobody held it, no space moves or changes its geometry, and its assertion is not reached |
| SlotEngine.Engine.DeleteSlot | decl-gh-runtime/liblfi/engine.c:208-219 | a slot in use comes free, counted; no other slot changes hands, no space moves or changes its geometry, and its assertion holds |
| SlotEngine.HandedOutAdds | decl-gh-runtime/liblfi/engine.c:195-206 | the addresses in use afterwards are those before and the new one, which was not among them |
| SlotEngine.FreedTakesAway | decl-gh-runtime/liblfi/engine.c:208-219 | the addresses in use afterwards are those before without the one given back |
| SlotEngine.OneHolder | decl-gh-runtime/liblfi/engine.c:195-219 | an address in use belongs to one slot of one space |
| SlotEngine.Engine.NumProcs | decl-gh-runtime/liblfi/engine.c:74-82 | the number of slots in use |
| SlotEngine.Engine.MaxProcs | decl-gh-runtime/liblfi/engine.c:62-72 | the number of slots for sandboxes, less one for each space of a single slot, with 64-bit wrap-around |
| SlotEngine.ProcsWithinMaxIff | decl-gh-runtime/liblfi/engine.c:62-82 | lfi_numprocs is at most lfi_maxprocs if every space has two slots, and otherwise exactly if as many slots are free as there are spaces of one slot, or the difference wraps |
| SlotEngine.MoreProcsThanMax | decl-gh-runtime/liblfi/engine.c:62-82 | two spaces that regions of one and of three slots give, one slot in use: one sandbox, and lfi_maxprocs is 0 |
| SlotEngine.OneSlotSpace | decl-gh-runtime/liblfi/engine.c:115-149 | a region of one slot is accepted, and lfi_maxprocs is then 2^64 - 1 |
| SlotEngine.Engine.AddProc | decl-gh-runtime/liblfi/engine.c:230-257 | succeeds exactly if there is memory and a slot, and answers the slot that allocslot takes; when only the memory setup fails that slot stays taken, and in all other cases nothing changes |
| GasWords.ChargeCovers | decl-gh-runtime/lfi-verify/arm64/meter.c:16-30 | the encoded charge covers the segment exactly up to 4095 * 4096 instructions |
| GasWords.ChargeExact | decl-gh-runtime/lfi-verify/arm64/meter.c:21-30 | small charges are exact |
| GasWords.ChargeLost | decl-gh-runtime/lfi-verify/arm64/meter.c:21-30 | a charge of 4096 * 4096 runs into the shift flag and charges nothing |
| Metering.UpdateCoversMask | decl-gh-runtime/lfi-verify/arm64/meter.c:32-39 | the check of register operands takes an instruction for an update of the gas whenever it writes x23 other than by write-back |
| Metering.HasGasUpdate | decl-gh-runtime/lfi-verify/arm64/meter.c:32-39 | the loop decides whether an operand counted is the gas register |
| Metering.VchkMeter | decl-gh-runtime/lfi-verify/arm64/meter.c:41-135 | accepts exactly the code in which each branch ends its bundle behind a charge for its segment and each other update is a charge |
| Metering.Segments | decl-gh-runtime/lfi-verify/arm64/meter.c:80-119 | the loop with lastbranch and lastupdate decides that |
| Metering.CheckInsn | decl-gh-runtime/lfi-verify/arm64/meter.c:82-118 | one round checks one instruction and moves the boundary |
| Metering.OthersGoOn | decl-gh-runtime/lfi-verify/arm64/verify.c:200-231 | an instruction that the checker takes for no branch is followed by the next one on every run, by what its mnemonic does |
| MeterRules.AcceptsIffCharged | decl-gh-runtime/lfi-verify/arm64/meter.c:41-135 | the checker accepts exactly if every instruction that ends a segment stands at the end of a bundle, behind a charge for what was run since the last such instruction, and every other one that touches the gas is such a charge; segments, updates and charges are told from mnemonics and operands anew |
| Metering.NoBranchAtBundleStart | decl-gh-runtime/lfi-verify/arm64/meter.c:113-118 | no aligned jump can reach a branch without its charge |
| Metering.BranchKeepsPaid | decl-gh-runtime/lfi-verify/arm64/verify.c:260-297 | a branch, direct or indirect, leaves everything paid for |
| Metering.StraightKeepsPaid | decl-gh-runtime/lfi-verify/arm64/meter.c:77-112 | straight-line code owes at most the instructions since the last charge |
| Metering.RunsArePaid | decl-gh-runtime/lfi-verify/arm64/meter.c:41-135 | on every run of accepted code, by the mnemonics' own control flow, at every point, what was charged pays for what was executed up to the last boundary; only segments that a charge closes have to be short enough |
| Metering.BranchesArePaid | decl-gh-runtime/lfi-verify/arm64/meter.c:41-135 | right behind every branch nothing is owed |
| Metering.OverdraftIsBounded | decl-gh-runtime/lfi-verify/arm64/meter.c:41-135 | where no stretch of code is too long, a run never owes more than one segment |
| Metering.RegisterPaysIff | decl-gh-runtime/lfi-verify/arm64/verify.c:339-370 | x23 has lost exactly what was charged, on every run, exactly if no instruction writes it back through a memory operand |
| Metering.WriteBackEscapes | decl-gh-runtime/lfi-verify/arm64/verify.c:339-370 | any such instruction in accepted code lets some run change x23 without a charge |
| Metering.WriteBackIsAccepted | decl-gh-runtime/lfi-verify/arm64/meter.c:57-119 | one load with write-back of x23 is accepted, and x23 does not follow the charges |
| Metering.LongSegmentOwes | decl-gh-runtime/lfi-verify/arm64/meter.c:21-30 | a branch behind more than 4095 * 4096 instructions is passed by a run that has not paid for it |
| Metering.LongStretchOwes | decl-gh-runtime/lfi-verify/arm64/meter.c:21-30 | nor does a charge on its own pay for such a stretch |
| Postlink.FindLeaders | decl-toolchain/lfi-postlink/arm64.c:74-130 | an instruction begins a segment exactly if it is the first or stands behind a branch |
| Postlink.Meteropt | decl-toolchain/lfi-postlink/arm64.c:59-218 | in place, each placeholder before a branch becomes the charge for its segment and no other word changes |
| Postlink.MeteredIs | decl-toolchain/lfi-postlink/arm64.c:59-218 | the output is the one in which exactly those placeholders, and nops, that stand before an instruction that ends a segment became the charge for what lies behind the last such instruction; such instructions are told by mnemonic anew |
| Postlink.MeteredIsAccepted | decl-toolchain/lfi-postlink/arm64.c:59-218 | prepared code comes out accepted by the checker |
| Postlink.MeteredRunsArePaid | decl-toolchain/lfi-postlink/arm64.c:33-46 | so every run of it pays for itself, if no branch ends a segment of more than 4095 * 4096 instructions |
| Bundles.FindCall | decl-gh-runtime/lfi-verify/amd64/macroinst.c:251-307 | the loop over nops finds the call macro-instruction |
| Bundles.FindMacro | decl-gh-runtime/lfi-verify/amd64/macroinst.c:400-419 | the first matcher that applies, in the order of the table |
| Bundles.MacroWalks | decl-gh-runtime/lfi-verify/amd64/macroinst.c:14-398 | size and count of every macro-instruction are those of its instructions |
| BundleForms.MaskedJumpIsAccepted | decl-gh-runtime/lfi-verify/amd64/macroinst.c:163-198 | and, or and jump through one register, in the form documented, pass as one item |
| BundleForms.MaskedCallIsAccepted | decl-gh-runtime/lfi-verify/amd64/macroinst.c:251-307 | so do and, or, any nops and call, if they end a bundle and position-oblivious code is not asked for |
| BundleForms.CallEndsItsBundle | decl-gh-runtime/lfi-verify/amd64/macroinst.c:251-307 | such a call passes only at the end of a bundle |
| BundleForms.RtcallIsAccepted | decl-gh-runtime/lfi-verify/amd64/macroinst.c:200-238 | so do the lea and the jump of a runtime call for each of the four entries |
| BundleForms.RtcallForm | decl-gh-runtime/lfi-verify/amd64/macroinst.c:200-238 | nothing passes for a runtime call but a lea to r11 of the address behind it or of a bundle, and a jump through a word near r13 |
| BundleForms.ModSpIsAccepted | decl-gh-runtime/lfi-verify/amd64/macroinst.c:309-353 | so do the pairs of instructions that change the stack pointer and rebase it |
| BundleForms.ModSpForm | decl-gh-runtime/lfi-verify/amd64/macroinst.c:309-353 | nothing else passes for such a pair |
| BundleForms.StackStaysIff | decl-gh-runtime/lfi-verify/amd64/macroinst.c:309-353 | behind such a pair the stack pointer is in the sandbox exactly if no prefix cuts the address of the lea |
| BundleForms.StosIsAccepted | decl-gh-runtime/lfi-verify/amd64/macroinst.c:14-161 | so does stos between its truncations and rebasing |
| BundleForms.StosForm | decl-gh-runtime/lfi-verify/amd64/macroinst.c:14-161 | nothing else passes for that |
| BundleForms.MovsIsAccepted | decl-gh-runtime/lfi-verify/amd64/macroinst.c:14-161 | so does movs with both its pointers |
| BundleForms.MovsForm | decl-gh-runtime/lfi-verify/amd64/macroinst.c:14-161 | nothing else passes for that |
| BundleForms.PointerStaysIff | decl-gh-runtime/lfi-verify/amd64/macroinst.c:14-161 | the pointer of a string instruction is in the sandbox before it, and no other register is changed, exactly if no prefix cuts the address of its lea |
| BundleForms.ShiftIsAccepted | decl-gh-runtime/lfi-verify/amd64/macroinst.c:355-398 | so do double shifts of 64 bits, and narrower ones behind the mask for their count |
| BundleForms.ShiftForm | decl-gh-runtime/lfi-verify/amd64/macroinst.c:355-398 | nothing else passes for them |
| Bundles.CheckItem | decl-gh-runtime/lfi-verify/amd64/verify.c:288-304 | one item: a macro-instruction, or a single instruction that passes the checks |
| BundleForms.PlainIsAccepted | decl-gh-runtime/lfi-verify/amd64/verify.c:38-110 | an instruction on the list that names none of the four special registers passes, branches if they go to a bundle |
| BundleForms.ReadingIsAccepted | decl-gh-runtime/lfi-verify/amd64/verify.c:52-106 | so does one that reads the base or the stack pointer and changes its first operand only |
| BundleForms.AllowedKeepsStack | decl-gh-runtime/lfi-verify/amd64/verify.c:52-106 | no single instruction but a call changes the stack pointer, as far as the count of changed operands tells |
| BundleForms.ObliviousReads | decl-gh-runtime/lfi-verify/amd64/verify.c:52-106 | in position-oblivious code no single instruction names r13, or reads more of r11 than its lower half |
| Bundles.VchkBundle | decl-gh-runtime/lfi-verify/amd64/verify.c:284-321 | a bundle passes exactly if it is cut into items that pass and end with it; the count is the number of instructions |
| Bundles.Verify | decl-gh-runtime/lfi-verify/amd64/verify.c:368-388 | accepts exactly if all bundles pass; decoding the counted number of instructions from the start ends at the end of the code |
| BundleForms.AcceptsIffCut | decl-gh-runtime/lfi-verify/amd64/verify.c:284-388 | code is accepted exactly if it can be cut into items that pass, none of them across the end of a bundle |
| BundleRuns.NextItem | decl-gh-runtime/lfi-verify/amd64/verify.c:284-321 | in accepted code an item is followed by an item or by the end of the code |
| BundleRuns.OrAligned | decl-gh-runtime/lfi-verify/amd64/macroinst.c:163-198 | the or with an aligned base keeps an aligned address aligned |
| BundleRuns.MaskAligns | decl-gh-runtime/lfi-verify/amd64/macroinst.c:163-198 | the and with 0xffffffe0 leaves an aligned address |
| BundleRuns.JmpStep | decl-gh-runtime/lfi-verify/amd64/macroinst.c:163-198 | a masked jump stays in the item or goes to a bundle |
| BundleRuns.CallStep | decl-gh-runtime/lfi-verify/amd64/macroinst.c:251-307 | a masked call does, too, across its nops |
| BundleRuns.RtcallStep | decl-gh-runtime/lfi-verify/amd64/macroinst.c:204-238 | a runtime call that reads an entry returns where an item begins, if its lea leaves no other choice |
| BundleRuns.ReturnFits | decl-gh-runtime/lfi-verify/amd64/macroinst.c:204-238 | a call that returns to a bundle, or behind itself in code no larger than the width of its lea, has no other choice; a 64-bit lea never has |
| BundleRuns.ReturnsFit | decl-gh-runtime/lfi-verify/amd64/macroinst.c:204-238 | so code of up to 2^32 bytes is in order unless a lea is cut to 16 bits |
| BundleEscapes.CallGoesOn | decl-gh-runtime/lfi-verify/amd64/macroinst.c:204-238 | with r13 in order, every run that comes to a runtime call that reads an entry goes on to the address that its lea makes of the old r11 |
| BundleEscapes.CallGoesAstray | decl-gh-runtime/lfi-verify/amd64/macroinst.c:200-238 | with another r13, or if it reads no entry, the run may go on to any address |
| BundleEscapes.ReturnsWellIff | decl-gh-runtime/lfi-verify/amd64/macroinst.c:204-238 | wherever it is, a runtime call returns to the start of an item on all runs exactly if it reads an entry, and r13 and r11 are in order in every state in which some run comes to it |
| BundleEscapes.ReturnOkIff | decl-gh-runtime/lfi-verify/amd64/macroinst.c:204-238 | at the start of a bundle: exactly if it reads an entry, its lea leaves no other choice, and no run comes there with another r13 |
| BundleEscapes.BadReturnEscapes | decl-gh-runtime/lfi-verify/amd64/macroinst.c:204-238 | a run that comes to the call with an r11 that makes a wrong place of it goes on to enter the code there |
| BundleEscapes.NoEntryEscapes | decl-gh-runtime/lfi-verify/amd64/macroinst.c:200-238 | a runtime call at the start of a bundle that reads no entry reaches every address |
| BundleEscapes.MaskedTableEscapes | decl-gh-runtime/lfi-verify/amd64/macroinst.c:163-307 | behind a masked jump or call through r13 at the start of a bundle, every runtime call at the start of a bundle reaches every address |
| BundleEscapes.UnreservedEscapes | decl-gh-runtime/lfi-verify/amd64/verify.c:91-101 | so does a runtime call behind an instruction at the start of a bundle that changes r13 on any step |
| BundleEscapes.UnreservedChanges | decl-gh-runtime/lfi-verify/amd64/verify.c:91-101 | a move of 64 bits, a sum, an exchange or an unknown instruction that changes r13 has such a step |
| BundleExamples.NarrowReturnEscapes | decl-gh-runtime/lfi-verify/amd64/macroinst.c:204-238 | an accepted program with a 16-bit lea that breaks no other condition, and a run of it that comes to an offset decoding never comes to |
| BundleRuns.AllowedKeepsBase | decl-gh-runtime/lfi-verify/amd64/verify.c:52-106 | the register checks keep a single instruction from changing r14, and r13 under `decl` or `poc` |
| BundleRuns.EffectKeepsBase | decl-gh-runtime/lfi-verify/amd64/macroinst.c:355-398 | a double shift by nothing, or by the whole width into itself, keeps r14 aligned |
| BundleRuns.EffectKeepsTable | decl-gh-runtime/lfi-verify/amd64/macroinst.c:355-398 | such a shift, if not of 32 bits, keeps the value of r13 |
| ShiftEscapes.HarmlessIff | decl-gh-runtime/lfi-verify/amd64/macroinst.c:355-398 | a double shift of r14 keeps it aligned whatever the registers hold exactly if it does nothing to it |
| ShiftEscapes.TableShiftIff | decl-gh-runtime/lfi-verify/amd64/macroinst.c:355-398 | a double shift of r13 keeps its value whatever the registers hold exactly if it does nothing to it and is not of 32 bits |
| ShiftEscapes.BadShiftEscapes | decl-gh-runtime/lfi-verify/amd64/macroinst.c:355-398 | behind any other shift of r14 at the start of a bundle some run has it misaligned |
| ShiftEscapes.BadTableShift | decl-gh-runtime/lfi-verify/amd64/macroinst.c:355-398 | behind any other shift of r13 at the start of a bundle some run has another address in it than that of the table |
| BundleEscapes.MisalignedJump | decl-gh-runtime/lfi-verify/amd64/macroinst.c:163-198 | with a misaligned r14 every run through a masked jump goes to an address that is no bundle |
| ShiftEscapes.ShiftedJumpStrays | decl-gh-runtime/lfi-verify/amd64/macroinst.c:355-398 | a masked jump behind a shift of r14 goes to an address that is no bundle on some run, whatever its register is but r14 |
| ShiftEscapes.ShiftedJumpEscapes | decl-gh-runtime/lfi-verify/amd64/macroinst.c:355-398 | if the shift does not read its register, there is a misaligned v so that for every bundle below 2^32 some run of it comes to the address with the bits of v added |
| ShiftEscapes.ShiftedCallEscapes | decl-gh-runtime/lfi-verify/amd64/macroinst.c:355-398 | a runtime call behind a shift that changes r13 reaches every address |
| BundleExamples.ShiftedBaseEscapes | decl-gh-runtime/lfi-verify/amd64/macroinst.c:355-398 | an accepted program with a shift of r14 that breaks no other condition, and a run of it that comes to an offset decoding never comes to |
| TableExamples.ShiftedTableEscapes | decl-gh-runtime/lfi-verify/amd64/macroinst.c:355-398 | the same for a shift of r13 and a runtime call |
| TableExamples.MaskedTableIsAccepted | decl-gh-runtime/lfi-verify/amd64/macroinst.c:163-198 | the same for a masked jump through r13 and a runtime call |
| TableExamples.NoEntryIsAccepted | decl-gh-runtime/lfi-verify/amd64/macroinst.c:200-238 | the same for each displacement that `okdisp` lets pass and that names no entry |
| TableExamples.UnreservedIsAccepted | decl-gh-runtime/lfi-verify/amd64/verify.c:91-101 | the same for a move to r13 under neither option |
| BundleRuns.PlainStep | decl-gh-runtime/lfi-verify/amd64/macroinst.c:14-161 | the other macro-instructions are passed through from first to last, and r13 and r14 stay in order if their double shift does nothing to them |
| BundleRuns.SingleStep | decl-gh-runtime/lfi-verify/amd64/verify.c:270-280 | a single instruction falls through or goes to a bundle, r14 stays aligned, and r13 in place unless the instruction changes it |
| BundleRuns.RunsAreCovered | decl-gh-runtime/lfi-verify/amd64/verify.c:284-321 | on every run of accepted code that meets the three conditions, every state is inside an item or outside the code, with r14 aligned and the address of the table in r13 |
| BundleRuns.RunsStayOnDecodedStarts | decl-gh-runtime/lfi-verify/amd64/verify.c:368-399 | under these conditions every instruction executed is one that decoding from the start comes to |
| BundleRuns.BranchesEnterItems | decl-gh-runtime/lfi-verify/amd64/verify.c:284-321 | under these conditions no step enters a macro-instruction but at its first instruction |
| FlagTables.TablesAgree | decl-gh-runtime/lfi-verify/amd64/flags.c:187-192 | no instruction is in both tables with the same flag, so the assertion never fires |
| FlagColumns.ReadTable | decl-gh-runtime/lfi-verify/amd64/flags.c:6-98 | which instructions read each flag |
| FlagColumns.UndefTable | decl-gh-runtime/lfi-verify/amd64/flags.c:136-171 | which instructions leave each flag undefined |
| FlagColumns.ModifyTable | decl-gh-runtime/lfi-verify/amd64/flags.c:102-132 | which instructions define each flag |
| FlagFlow.AnalyzeBlock | decl-gh-runtime/lfi-verify/amd64/flags.c:183-210 | returns the flags undefined behind the block and reports exactly the reads of AF or of undefined flags |
| FlagFlow.AfterIs | decl-gh-runtime/lfi-verify/amd64/flags.c:183-210 | a flag is undefined behind a stretch of code exactly if the last instruction that touches it leaves it undefined, or none touches it and it was undefined before |
| FlagFlow.FirstPass | decl-gh-runtime/lfi-verify/amd64/flags.c:307-318 | leaves on every block the results of the blocks behind it |
| FlagFlow.SecondPass | decl-gh-runtime/lfi-verify/amd64/flags.c:320-331 | reports exactly if the equations of the two passes call for it |
| FlagFlow.AnalyzePasses | decl-gh-runtime/lfi-verify/amd64/flags.c:307-331 | the in-place passes solve the equations |
| FlagFlow.In2Is | decl-gh-runtime/lfi-verify/amd64/flags.c:307-331 | a flag counts as undefined at the start of a block exactly if a block with an edge to it leaves it so: one before it by what that one starts with, one behind it with all status flags undefined at first |
| FlagFlow.CleanIs | decl-gh-runtime/lfi-verify/amd64/flags.c:307-331 | nothing is reported exactly if no instruction reads AF, or a flag that code before it in its block leaves undefined, or that is undefined at the start of the block and not touched |
| FlagFlow.EnteringIsBounded | decl-gh-runtime/lfi-verify/amd64/flags.c:307-331 | along every path the undefined status flags stay within the inputs of the second pass |
| FlagFlow.UndefinedIs | decl-gh-runtime/lfi-verify/amd64/flags.c:183-331 | the flags undefined on a path, as sets, are those that the last executed instruction to touch them left undefined |
| FlagFlow.NoUndefinedRead | decl-gh-runtime/lfi-verify/amd64/flags.c:183-331 | if nothing is reported, then on every path of the graph from the entry, of the instructions executed before a read of a status flag the last that touches the flag does not leave it undefined |
| FlagFlow.ForwardIsExact | decl-gh-runtime/lfi-verify/amd64/flags.c:307-331 | without backward edges and unreachable blocks a report is made exactly if on some path an instruction reads AF, or a flag that the last instruction to touch it left undefined |
| FlagGraph.FillTable | decl-gh-runtime/lfi-verify/amd64/flags.c:245-252 | the table ends up with one entry: the start of the code, for the last instruction |
| FlagGraph.FindTarget | decl-gh-runtime/lfi-verify/amd64/flags.c:212-218 | a lookup succeeds exactly if the target is as far from the start as the start is from zero |
| FlagGraph.FindLeaders | decl-gh-runtime/lfi-verify/amd64/flags.c:253-275 | the leaders as the code finds them |
| FlagGraph.BuildBlocks | decl-gh-runtime/lfi-verify/amd64/flags.c:277-305 | the blocks and their edges as the code builds them |
| FlagGraph.AnalyzeCfg | decl-gh-runtime/lfi-verify/amd64/flags.c:228-337 | reports exactly if the equations on that graph call for it |
| FlagGraph.BuiltEdges | decl-gh-runtime/lfi-verify/amd64/flags.c:277-305 | edges fall through or lead to the last instruction, never backwards but for one odd loop |
| FlagGraph.EdgeIff | decl-gh-runtime/lfi-verify/amd64/flags.c:277-305 | the edges of a block are exactly one to the next block, unless it ends with an unconditional direct branch, and one to the last instruction, for a direct branch whose target is as far from the start as the start is from zero |
| FlagGraph.TargetEdgeIff | decl-gh-runtime/lfi-verify/amd64/flags.c:245-299 | the graph has the edge of a branch to the very instruction it goes to exactly if that is the last one and is as far from the start as the start is from zero |
| FlagGraph.StartIsTakenForEnd | decl-gh-runtime/lfi-verify/amd64/flags.c:245-299 | in code at address zero every branch to the start has its edge at the last instruction |
| FlagGraph.GraphIsCompleteIff | decl-gh-runtime/lfi-verify/amd64/flags.c:277-305 | the graph knows every step the code can take exactly if every direct branch goes to the last instruction in that way, or to where it falls through anyway |
| FlagGraph.UndefAtIs | decl-gh-runtime/lfi-verify/amd64/flags.c:183-210 | the flags undefined at a point of a run, as sets, are those that the last executed instruction to touch them left undefined |
| FlagGraph.NoUndefinedReadInCode | decl-gh-runtime/lfi-verify/amd64/flags.c:228-337 | if that holds and nothing is reported, no run of the code itself reads a status flag that the last instruction executed to touch it left undefined |
| FlagGraph.WrongEdgeHidesRead | decl-gh-runtime/lfi-verify/amd64/flags.c:245-299 | an example in which a branch has an edge, but to the wrong place, and a read of an undefined flag is not reported |
| FlagGraph.MissingEdgeHidesRead | decl-gh-runtime/lfi-verify/amd64/flags.c:245-299 | an example in which a missing edge hides a read of an undefined flag |
| FlagMisses.CarrySpots | decl-gh-runtime/lfi-verify/amd64/flags.c:228-337 | with one div before such a branch and one adc at its target, the analysis never takes the carry flag for undefined at the adc |
| FlagMisses.UnkeptHidesRead | decl-gh-runtime/lfi-verify/amd64/flags.c:228-337 | whenever a run comes before a branch that the graph does not know, some choice of instructions of the same sizes and flow is not reported, although the run goes on to read a flag that the last instruction to touch it left undefined |
| HashTableClass.PowerCeil | decl-gh-runtime/lfi-verify/amd64/ht.c:6-12 | the least power of two, for hints up to 2^63 |
| HashTableClass.DoublingReachesIff | decl-gh-runtime/lfi-verify/amd64/ht.c:6-12 | in 64 bits the doubling reaches the hint exactly if it is at most 2^63; beyond, the loop does not end |
| HashTableClass.Probe | decl-gh-runtime/lfi-verify/amd64/ht.c:29-50 | probing terminates at the first slot that is empty or has the key |
| Probing.SpotDecides | decl-gh-runtime/lfi-verify/amd64/ht.c:29-50 | that slot decides whether the key is in the map, and with which value |
| Probing.SomeSlotIsEmpty | decl-gh-runtime/lfi-verify/amd64/ht.c:79-84 | a table with fewer pairs than slots has an empty slot |
| Probing.PutKeeps | decl-gh-runtime/lfi-verify/amd64/ht.c:86-106 | filling or overwriting that slot keeps every entry reachable |
| Probing.RemovalBegins | decl-gh-runtime/lfi-verify/amd64/ht.c:114-127 | taking out an entry endangers only the rest of its cluster |
| Probing.RehashStep | decl-gh-runtime/lfi-verify/amd64/ht.c:131-137 | putting in again the next entry of the cluster lands there or before and keeps what is done |
| Probing.RehashEnds | decl-gh-runtime/lfi-verify/amd64/ht.c:131-137 | at the end of the cluster every entry is reachable again |
| HashTableClass.HashTable.constructor | decl-gh-runtime/lfi-verify/amd64/ht.c:14-23 | an empty map |
| HashTableClass.HashTable.Get | decl-gh-runtime/lfi-verify/amd64/ht.c:29-50 | finds exactly the pairs of the map |
| HashTableClass.HashTable.Put | decl-gh-runtime/lfi-verify/amd64/ht.c:79-107 | updates the map; fails exactly if it must grow without memory, and then changes nothing |
| HashTableClass.HashTable.Remove | decl-gh-runtime/lfi-verify/amd64/ht.c:114-143 | removes the key from the map; says when it could not shrink, and when the size changes |
| HashTableClass.HashTable.Resize | decl-gh-runtime/lfi-verify/amd64/ht.c:52-77 | keeps the map |
| HashTableClass.HashTable.Transfer | decl-gh-runtime/lfi-verify/amd64/ht.c:64-69 | no insertion into the new table asks for another resize although its length starts too high |
| HashTableClass.HashTable.TakeOut | decl-gh-runtime/lfi-verify/amd64/ht.c:124-137 | the rehash loop terminates and loses nothing |
| HashTableClass.HashTable.Again | decl-gh-runtime/lfi-verify/amd64/ht.c:131-136 | one entry of the cluster is put in again without a resize |
| PathSegments.FirstSegmentWithoutRoot | decl-runtime/liblfix/cwalk/cwalk.c:195-236 | finds the first segment, if there is one |
| PathSegments.FirstSegment | decl-runtime/liblfix/cwalk/cwalk.c:1228-1241 | the same behind the root |
| PathSegments.NextSegment | decl-runtime/liblfix/cwalk/cwalk.c:1262-1298 | goes to the next segment of the list, if there is one |
| PathSegments.PreviousSegment | decl-runtime/liblfix/cwalk/cwalk.c:1300-1329 | scanning backwards finds the segment before, if there is one |
| PathSegments.LastSegmentFrom | decl-runtime/liblfix/cwalk/cwalk.c:238-256 | goes to the last segment of the list |
| PathSegments.SegsAreListed | decl-runtime/liblfix/cwalk/cwalk.c:195-236 | segments are maximal runs with nothing but separators between them |
| JoinedPaths.FirstJoined | decl-runtime/liblfix/cwalk/cwalk.c:258-279 | the first segment of all paths |
| JoinedPaths.NextJoined | decl-runtime/liblfix/cwalk/cwalk.c:281-318 | the next segment, across paths |
| JoinedPaths.PreviousJoined | decl-runtime/liblfix/cwalk/cwalk.c:320-361 | the previous segment, across paths |
| JoinedPaths.SegmentType | decl-runtime/liblfix/cwalk/cwalk.c:1331-1343 | only the very segments . and .. are special |
| JoinedPaths.BackWillBeRemoved | decl-runtime/liblfix/cwalk/cwalk.c:363-403 | the backward count decides whether more normal than back segments stand before it |
| JoinedPaths.NormalWillBeRemoved | decl-runtime/liblfix/cwalk/cwalk.c:405-440 | the forward count decides whether more back than normal segments follow |
| JoinedPaths.WillBeRemoved | decl-runtime/liblfix/cwalk/cwalk.c:442-464 | whether a segment is dropped |
| PathResolve.ScansMatchStack | decl-runtime/liblfix/cwalk/cwalk.c:363-464 | the segments the scans keep are those left by resolving with a stack |
| PathNormalize.ResolvedNames | decl-runtime/liblfix/cwalk/cwalk.c:363-464 | the same for the names of the segments |
| PathNormalize.OutputSized | decl-runtime/liblfix/cwalk/cwalk.c:42-69 | writes what fits and returns the whole length |
| PathNormalize.TerminateOutput | decl-runtime/liblfix/cwalk/cwalk.c:113-123 | puts the end mark behind what fits |
| PathNormalize.JoinAndNormalize | decl-runtime/liblfix/cwalk/cwalk.c:606-680 | writes the normalised path as far as it fits, terminated, and returns its whole length |
| PathRules.NormalizedIs | decl-runtime/liblfix/cwalk/cwalk.c:363-464 | the normalised path from the text alone: the paths joined with separators and cut at them, empty parts and . dropped, .. taking back the name before it and kept where a relative path has none, joined again behind the root |
| PathRules.OnlyNamesAreLeft | decl-runtime/liblfix/cwalk/cwalk.c:606-680 | cut up again, it has no empty part and no . unless that is all of it, and .. only at the front, if there is no root |
| PathRules.IdleChangesNothing | decl-runtime/liblfix/cwalk/cwalk.c:606-680 | /. or /x/.. behind the last path changes nothing, except that an empty path becomes the root, and a path that led nowhere . |
| PathNormalize.NormalizedIsFixed | decl-runtime/liblfix/cwalk/cwalk.c:606-680 | normalising a result again returns it unchanged |
| FsbBits.ShiftedLeft | sp1-verify/hashes/fsb/src/macros.rs:195-202 | what a left shift does to each bit |
| FsbBits.ShiftedRight | sp1-verify/hashes/fsb/src/macros.rs:195-202 | what a right shift does to each bit |
| Fsb.ShiftAndTruncate | sp1-verify/hashes/fsb/src/macros.rs:183-280 | whatever the branch, the first r bits of the vector rotated to the right, with every index in bounds |
| Fsb.ShiftWithinTail | sp1-verify/hashes/fsb/src/macros.rs:193-202 | a shift within the bits of the last byte |
| Fsb.ShiftAcross | sp1-verify/hashes/fsb/src/macros.rs:203-262 | a shift that begins inside a byte, in its three cases |
| Fsb.ShiftByBytes | sp1-verify/hashes/fsb/src/macros.rs:263-277 | a shift that begins at a byte |
| Fsb.TailOk | sp1-verify/hashes/fsb/src/macros.rs:233-240 | the byte where the end of the vector meets its start |
| Fsb.ThreeOk | sp1-verify/hashes/fsb/src/macros.rs:253-256 | the byte where three bytes of the vector meet |
| FsbCompress.DefineIv | sp1-verify/hashes/fsb/src/macros.rs:92-106 | a piece of the table whose spare bits are zero and whose others are unchanged |
| FsbCompress.CutBatch | sp1-verify/hashes/fsb/src/macros.rs:144-156 | a batch taken from one byte or two |
| FsbCompress.DividingBits | sp1-verify/hashes/fsb/src/macros.rs:132-161 | batch i is the ith group of bits of the message |
| FsbCompress.MembersAreOk | sp1-verify/hashes/fsb/src/lib.rs:56-147 | for all five members every index chooses a vector inside the table |
| FsbCompress.ComputeIndices | sp1-verify/hashes/fsb/src/macros.rs:108-127 | index i is the documented sum and lies in the ith of w equal parts of 0..n |
| FsbCompress.XorVectors | sp1-verify/hashes/fsb/src/macros.rs:168-178 | every result bit is the exclusive or of the bits of the chosen rotated vectors |
| FsbCompress.Compress | sp1-verify/hashes/fsb/src/macros.rs:164-181 | the result is the exclusive or of the rotated vectors that the indices of hash and message choose |
| FsbCompress.CompressIsUnique | sp1-verify/hashes/fsb/src/macros.rs:108-181 | hash and message determine the indices, bit by bit, and so the result |

## Left out

- Buddy resizing, growing and shrinking, `buddy_is_free`, `buddy_copy`, `buddy_calloc`, release of ranges, and embedded mode: the engine does not use them.
- BuddyClass.Init: supposes memory sizes up to 2^63 and at most 2^30 slots, because the code shifts 32-bit ones by the order of the tree.
- BuddyClass.Buddy.Realloc: covers addresses of live blocks; a null pointer is malloc, and other addresses are the caller's error.
- BuddyClass.Buddy.WalkBlocks: the callback is a function, so it cannot call the allocator while it is being walked.
- BuddyBitset.BitsetCountRange: the popcount lookup table is modelled as the number of set bits of a byte; its 256 entries are not reproduced.
- SlotEngine.Engine.AddSpace: spaces hold their allocators as values, so sharing of allocator objects is not modelled; what the kernel hands out is supposed to be unused, the region to hold a slot boundary at least once on each side, since the code's unsigned subtraction would wrap otherwise, and to have at most 2^30 slots and 2^63 bytes, as the allocator demands.
- SlotEngine.AlignedRegion: the masks of `align.h` are modelled as rounding to multiples; memory mapping and sandbox set-up are parameters.
- Metering.VchkMeter: the decoder, and with it the table of mnemonics behind the operand mask, is a function; allocation failures and the assertion on unknown instructions are not modelled.
- Metering.RunsArePaid: supposes that indirect branches go to bundles and that runtime calls return behind the call with the gas kept; gas is an unbounded number.
- Postlink.Meteropt: timer mode, without precise or empty metering; the disassembler is a function that never fails, and the first instruction is no branch, since the code would read in front of its buffer.
- Bundles.Verify: the decoder is a function, and so are the checks of mnemonics and memory operands; the register checks look at three operands of an instruction. The table-driven pre-pass of `lfi_x86_bdd` is not modelled, and checking stops with the first failing bundle, as it does without an error reporter.
- BundleRuns.RunsAreCovered: has three conditions on the code: no lea of a runtime call lets r11 point into the code where no item begins (`ReturnsOk`, which `BundleRuns.ReturnsFit` gives for all code of at most 2^32 bytes without 16-bit leas); no item changes r13, and every runtime call reads one of the four entries that `syssetup` fills, by a plain displacement without prefixes (`TableOk`; of single instructions `BundleRuns.AllowedKeepsBase` gives it under `decl` or `poc`); and no double shift disturbs r14 (`ShiftsOk`). It supposes of the list of mnemonics (`ListOk`) that none outside `branchinfo` transfers control and none changes r14, or r13 where it is reserved, other than as one of the operands that `nmod` counts; the list in `decl.instrs` has no such mnemonic, and no return.
- BundleRuns.RtcallStep: supposes that the entries of the table lead to the runtime, which returns to the address in r11 and keeps r13 and r14; `lfi_ret`, which ends the run, is not told apart.
- BundleRuns.RunsStayOnDecodedStarts: supposes that a run begins with an aligned r14 and the address of the table in r13, as `lfi_restore_regs` leaves them (`lfi_asm_invoke` does not load r13), that the code does not change while it runs, and that near branches use whole registers; control flow outside the code is not followed.
- BundleEscapes.ReturnOkIff: says which values of r11 some run brings to a call only for calls at the start of a bundle, where any may be there; elsewhere `BundleEscapes.ReturnsWellIff` refers to the runs.
- ShiftEscapes.ShiftedJumpEscapes: speaks of a register that the shift does not read; of the others `ShiftEscapes.ShiftedJumpStrays` says only that the address is no bundle.
- FlagMisses.UnkeptHidesRead: supposes a straight instruction before the branch, another one at its target, and one where a conditional branch falls through, since only these can be chosen freely.
- FlagFlow.NoUndefinedRead: speaks of the six status flags, and of paths of the graph as built; indirect branches and call returns are the business of other checks.
- FlagGraph.AnalyzeCfg: supposes at least one instruction, since the code writes the first leader unasked; the hash table is a map here.
- HashTableClass.HashTable.Get: the mixing of `ht_hash` is not modelled, any function will do.
- PathNormalize.JoinAndNormalize: UNIX style, with a buffer apart from the paths; relative paths, extensions and the other queries of cwalk are left out.
- FsbCompress.Compress: the table of digits of pi is a parameter; padding and the final Whirlpool digest are not modelled.
- BuddyTreeClass.BuddyTree.constructor: supposes an order of at most 31, since the code shifts 32-bit ones by the order.
- BuddyClass.Buddy.constructor: supposes what `BuddyClass.Init` does.
- Metering.LongSegmentOwes: speaks of segments that begin at a bundle, where runs begin without credit; `Metering.LongStretchOwes` does, too.
- ArenaRuns.RunsFromInitAreSafe: supposes of realloc what `ArenaRuns.StepValid` does, as does `ArenaRuns.StepLedgerOk`.
- HashTableClass.HashTable.constructor: supposes what `HashTableClass.PowerCeil` does.
- ArenaRuns.StepValid: realloc is a step of a run for addresses of live blocks only; for other addresses the program may mark a node that is partly used.
- FlagGraph.NoUndefinedReadInCode: indirect branches are followed to the next instruction only.
- HashTableClass.PowerCeil: supposes a hint of at most 2^63, since the loop of the program does not end otherwise.
- ELF loading, system calls, signal handling, the fuzz runners, the assembler front end, the other hashes and the proof conversion: left out.
