# The memory layer of agent-resources, verified

A Dafny model of the explicit memory layer of the resource agent and of the code that stands directly
on it: the stack allocator and the arena allocator of `base/`, the arena-backed growable lists of
`libres/resources.cc`, and the text parsers and the decimal printer. `dafny verify dfyconfig.toml`
checks all of it.

How the code is modelled:

- Memory is a sequence (in values) or an array (in objects) of bytes. `u64` arithmetic wraps
  explicitly (`Bytes.Wrap`). Calls are total: where the C code would write outside its memory, divide
  by zero or exceed `int`, the model ends in a `Fault`, `Crash` or `overflow` outcome, and a lemma or
  contract says exactly when that happens.
- Each allocator comes in two layers. `BaseStack` and `BaseArena` are the code's transitions on bytes
  and positions. `StackLive` and `ArenaHeap` are what clients see: a list of independent blocks with
  contents and no buffer at all. `Represents` ties the layers, every operation keeps it, and the run
  theorems lift this to every sequence of operations, with arbitrary client writes in between and
  arbitrary dirty memory at the start. Disjointness, zero-initialisation and "no live block changes"
  are consequences of that one refinement.
- The classes `StackAllocator`, `ArenaAllocator` and `RecordArray` update their fields and arrays in
  place and are proved against the transitions.
- What the definitions themselves mean is stated apart from them, over the arguments, single bytes and
  numbers of the source: `StackCalls` and `ArenaCalls` for every call and for runs as sequences of calls,
  `ParsedExact`, `SplitExact`, `EntryLayout`, `SlotLayout` and others for text and records.
- Lemmas carry `{:induction false}`, so that the written proof is the whole proof.

Where the code departs from its evident intent it is modelled as written, and the exact condition
under which it does what is intended is proved. The repaired line is modelled beside it where callers
rely on the intended behaviour (`Form` for the arena, `Forms` for three lines of the stack
independently, `ResizeRepaired`); the run theorems hold for every combination:

- `base/base_mem.c:15` tests for powers of two the wrong way round, so `align` leaves a pointer to a
  power of two where it is. Arena safety is proved for both forms; alignment holds only for the
  repaired one.
- `base/base_stack.c:44` takes the branch for aligned pointers, so the padding does not depend on the
  pointer and a block inherits the alignment of the current address. Repaired, every block is aligned.
- `base/base_stack.c:127` compares with the base address instead of the offset, so pop ignores blocks
  at or beyond twice the base address, and does not ignore blocks that were already freed: popping one
  brings freed blocks back. Repaired, pop reaches every live block that is not empty and no freed one.
- `base/base_stack.c:175` returns the old pointer after it has filled a new block, which no caller then
  knows. Repaired, no block is lost over any run.
- `base/base_arena.c:157-161` does not restore the previous position, so a scope can change what a later
  resize does.
- `base/base_arena.c:118-130` has no capacity check in place, clears the arena's own record instead of
  the grown bytes, and returns NULL after relocating.
- `base/base_arena.c:134`: `check(0)` reports success and goes on, because the macro in
  `base/base_test.h:43-57` fails on nonzero values. The model goes on too and returns NULL.
- `base/base_parse.c:126` copies one byte less than the key length, so every stored key lacks its last
  byte, and a line that starts with a colon copies 2^64 - 1 bytes.
- `base/base_parse.c:81-92` uses three arena blocks without a test for NULL, so a full arena is a crash.
- `libres/resources.cc:191` stores the highest CPU index as the number of cores. That is the number of
  CPUs listed if and only if the list leaves out exactly one index below its highest.

## Model

| member | source | states |
|---|---|---|
| BaseMem.IsPowExact | base/base_mem.c:6-10 | the bit test accepts exactly zero and the 64 powers of two |
| BaseMem.AlignBracket | base/base_mem.c:12-21 | for all 64-bit arguments, the result lies in [pointer, pointer + alignment) if and only if the alignment is not zero and either the early return is taken or the sum does not wrap |
| BaseMem.AlignAsWrittenMisses | base/base_mem.c:15-18 | as written, alignment to a power of two is reached exactly when the pointer already had it |
| BaseMem.AlignRepairedExact | base/base_mem.c:12-21 | with the test repaired, the mask expression is the least multiple at or above the pointer exactly when that multiple is below 2^64 |
| BaseMem.RoundUpLeast | base/base_mem.c:20 | the reference function is the least multiple: a multiple, and below every other one that is large enough |
| BaseMem.AlignRepairedLaws | base/base_mem.c:12-21 | repaired alignment is idempotent and monotone |
| BaseMem.AlignInRange | base/base_arena.c:59 | for positions in a mapped arena either form moves forward by less than one step; as written it does not move |
| Padding.PaddingAsWritten | base/base_stack.c:30-64 | closed form: the padding is the least multiple of the alignment that holds the header, modulo 2^64, whatever the pointer |
| Padding.PaddingRepaired | base/base_stack.c:30-64 | with line 44 repaired the padding is the distance to the next aligned address that leaves room for the header, modulo 2^64 |
| Padding.PaddingIntent | base/base_stack.c:30-64 | the repaired padding is the least of all paddings that hold the header and align the block |
| Padding.PaddingMeetsIntent | base/base_stack.c:44-47 | the padding as written is that least padding if and only if the pointer is already aligned |
| Padding.RepairedPaddingFits | base/base_stack.c:76-93 | repaired, with the clamp to 128, the padding is between 2 and 129 and fits the header byte |
| StackLive.PaddingComputed | base/base_stack.c:76-93 | for both forms of line 44, with the clamp and the two-byte header: as written the padding is 2 or the clamped alignment, at most 128; repaired it leads to the next aligned address behind the header, at most 129; the header byte holds both |
| StackLive.PushAgrees | base/base_stack.c:66-98 | for both forms of line 44, a push adds one zeroed block, changes no other block, returns NULL without room, and faults exactly for alignment zero or a size that wraps the sum back into the buffer |
| StackLive.PopAgrees | base/base_stack.c:105-136 | the header byte read back recovers the earlier offset, whichever padding was written: popping block k leaves blocks 0 to k - 1, or everything if the block is out of reach of line 118 and of either form of line 127 |
| StackLive.WriteAgrees | base/base_stack.c:81-97 | a client's write inside its block changes that block and no other block or header |
| StackLive.ResizeAgrees | base/base_stack.c:138-176 | resize to zero pops; otherwise a new top block holds the kept bytes and zeros, every other block is unchanged, the pointer is the one of either form of line 175, and the run breaks exactly when a move to NULL is attempted |
| StackLive.ResizeNullAgrees | base/base_stack.c:141-144 | a resize of NULL is a push of a zeroed block, whatever the old size |
| StackLive.ResizeNoBlock | base/base_stack.c:145-166 | a resize of an address outside the buffer or at or above the offset, and a resize to nothing of an address that pop ignores, changes nothing and returns NULL |
| StackLive.StepAgrees | base/base_stack.c:66-182 | every operation, also a pop or a resize of NULL or of an address without a block, does to the bytes what it does to the list of independent blocks, with the same pointer and the same crashes |
| StackLive.BlocksOrdered | base/base_stack.c:81-97 | distinct blocks with their padding lie one after the other |
| StackRuns.RunRefines | base/base_stack.c:66-182 | for every combination of forms and over every run of pushes, pops and resizes of any live block, pops and resizes of NULL and of addresses out of reach (with line 127 repaired, also of every freed block whose place was not used again), pop-all and client writes, buffer and block list return the same pointers, hold the same contents and crash together |
| StackRuns.FreshStack | base/base_stack.c:23-27 | a new stack represents the empty list whatever its memory holds |
| StackRuns.LiveBlock | base/base_stack.c:81-97 | in every represented state the header byte of each block equals its padding, and its data are in place below the offset |
| StackRuns.LiveBlocksApart | base/base_stack.c:81-97 | any two live blocks are separated by at least a header |
| StackRuns.PushPop | base/base_stack.c:66-136 | for both forms of lines 44 and 127, popping the block just pushed restores the offset if and only if, as written, its address is inside the buffer and below twice the base, and repaired, its size is not zero |
| StackRuns.PopLeavesLowerBlocks | base/base_stack.c:105-136 | live blocks: with line 127 repaired, or on a stack not larger than its base address, popping any nonempty live block leaves exactly the blocks below it |
| StackRuns.PopOfFree | base/base_stack.c:127-134 | free addresses: repaired, pop of an address at or above the current offset changes nothing; as written it changes nothing if and only if the address is at least twice the base or its header byte happens to lead back to the offset |
| StackRuns.PopTwice | base/base_stack.c:105-136 | after block j was popped, popping block k above it changes nothing if and only if line 127 is repaired, or k is j, or the address is out of reach of lines 118 and 127; otherwise blocks 0 to k - 1 are live again |
| StackRuns.FreedBlockReturns | base/base_stack.c:127-134 | as written: push A, push B, pop A, pop B takes the offset from 0 back to the end of A |
| StackRuns.PushKeepsResidue | base/base_stack.c:44-91 | with line 44 as written a pushed block lies 2 bytes behind the current address for alignment 1, and otherwise the alignment cut to 128, so its remainder modulo that is the one of the current address |
| StackRuns.FirstPushMisaligned | base/base_stack.c:23-103 | as written, in a buffer that starts 24 bytes into a page the first block of `stack_push` has remainder 8 modulo ARENA_ALIGN |
| StackRuns.PushAligned | base/base_stack.c:44-91 | with line 44 repaired a pushed block is at a multiple of the requested alignment cut to 128, the lowest one that leaves two bytes for the header |
| StackRuns.ResizeMoves | base/base_stack.c:168-175 | a resize to another size leaves all blocks and adds one on top with the kept bytes and zeros; the pointer returned is the old block if and only if line 175 is as written, and the new one if and only if it is repaired |
| StackRuns.ResizePointerIsOld | base/base_stack.c:173-175 | as written, the requested bytes at the returned address run into other blocks if and only if the block was to grow |
| StackRuns.ResizePointerIsNew | base/base_stack.c:173-175 | repaired, the requested bytes at the returned address are the new block and touch no other |
| StackRuns.RunHonoursResizes | base/base_stack.c:138-176 | repaired, over every run each resize that returns a pointer returns a block whose bytes in the buffer are the first bytes of the old one and zeros: the new top block, or the block itself if the size is unchanged |
| StackRuns.NoBlockLost | base/base_stack.c:138-176 | repaired, after every run from a fresh stack the address of each live block is among the pointers that the calls returned |
| StackRuns.MovedBlockKnown | base/base_stack.c:173-175 | after a moving resize every live block has a known address if and only if line 175 is repaired or an earlier call returned the address of the new block |
| StackRuns.LostBlock | base/base_stack.c:175 | as written, one push and one growing resize leave a block whose address nobody was given |
| StackCalls.PushExact | base/base_stack.c:66-98 | for every size and alignment: NULL for no power of two, a fault for zero or a wrapping size, NULL without room, and otherwise the exact address, offset, header byte and zeroed bytes, with every other byte unchanged |
| StackCalls.PushIsAlign16 | base/base_stack.c:99-103 | push is push with alignment 16 |
| StackCalls.PopExact | base/base_stack.c:105-136 | for every pointer: which ones are ignored, and the new offset from the byte two below the others |
| StackCalls.HeaderInRecord | base/base_stack.c:132-133 | for the first two addresses of the buffer that byte is one of the two highest of the capacity |
| StackCalls.ResizeExact | base/base_stack.c:138-176 | every branch for a live block: pop, NULL, the same pointer, a fault, or a new block with the first bytes of the old one over the zeros of the push, every other byte as the push left it |
| StackCalls.OneCall | base/base_stack.c:66-182 | which operations a client may use, and the call with its arguments that each of them is in a run |
| StackCalls.RunAppend | base/base_stack.c:66-182 | a run is its first part followed by the rest from the state that is left, with the pointers in order |
| MemStack.StackAllocator.constructor | base/base_stack.c:23-27 | the initial state, which represents no blocks |
| MemStack.StackAllocator.PushAlign | base/base_stack.c:66-98 | the in-place push refines the transition, including its fault |
| MemStack.StackAllocator.Place | base/base_stack.c:84-97 | the capacity test, the header byte and the zeroing, for any padding |
| MemStack.StackAllocator.Push | base/base_stack.c:99-103 | push with the default alignment |
| MemStack.StackAllocator.Pop | base/base_stack.c:105-136 | pop of any pointer whatever, also one into the record before the buffer |
| MemStack.StackAllocator.PopAll | base/base_stack.c:178-182 | the offset is zero and nothing else changes |
| MemStack.StackAllocator.ResizeAlign | base/base_stack.c:138-176 | all five branches of resize, for both forms of line 175 |
| MemStack.StackAllocator.Relocate | base/base_stack.c:173-175 | push and move in place, for both forms of line 175 |
| MemStack.StackAllocator.Move | base/base_stack.c:174 | the overlapping copy, with a fault outside the buffer |
| ArenaHeap.KeepBelowExact | base/base_arena.c:78-96 | moving the position keeps exactly the blocks that end at or below it |
| ArenaHeap.RunLaid | base/base_arena.c:51-161 | over every run, with nested scopes and any restored position up to the capacity, the position stays in the buffer and live blocks are nonempty, disjoint, ordered and below it |
| ArenaRuns.AllocAgrees | base/base_arena.c:51-75 | an allocation over dirty memory adds one all-zero block and changes no live block |
| ArenaRuns.AllocOutcomes | base/base_arena.c:59-65 | an allocation faults if and only if the size wraps the sum back into the buffer, and returns NULL if and only if it otherwise does not fit |
| ArenaRuns.StepAgrees | base/base_arena.c:51-161 | every call and client write does to the buffer what it does to the heap of independent blocks |
| ArenaRuns.CallsRefine | base/base_arena.c:51-161 | the calls a run makes, with marks saved and restored on a stack of scopes, take the buffer alone to the results and the state of the heap, inside any enclosing scopes |
| ArenaRuns.RunRefines | base/base_arena.c:51-161 | over every run the buffer returns the pointers, holds the contents and crashes like the heap of zero-initialised independent blocks |
| ArenaRuns.FreshArena | base/base_arena.c:32-35 | a new arena represents the heap without blocks whatever its memory holds |
| ArenaRuns.LiveBlock | base/base_arena.c:51-75 | in every represented state the bytes of a block are in the buffer below the position, and no other block touches them |
| ArenaCalls.AllocExact | base/base_arena.c:51-75 | for every size: the start of the block, the fault, NULL, and otherwise both positions and every byte of the buffer |
| ArenaCalls.PositionsExact | base/base_arena.c:78-161 | the position after pop, pop-to, clear and the end of a scope, with everything else unchanged |
| ArenaCalls.AllocUndone | base/base_arena.c:51-161 | pop, pop-to and the end of a scope each take the position back to before an allocation |
| ArenaCalls.InPlaceExact | base/base_arena.c:116-123 | repaired: both positions and every byte after a resize in place, or nothing without room |
| ArenaCalls.RelocationExact | base/base_arena.c:125-130 | repaired: an allocation decides, and every byte after the move |
| ArenaCalls.ClearLowExact | base/base_arena.c:121 | clearing the first n bytes of a word keeps the multiple of 256^n |
| ArenaCalls.GrowthDamage | base/base_arena.c:118-123 | as written: which fields of the record and which bytes of the buffer a growth by n bytes clears, and when it leaves the mapping |
| ArenaCalls.LittleGrowth | base/base_arena.c:118-123 | as written: growth by less than eight bytes damages the current position alone |
| ArenaCalls.OneCall | base/base_arena.c:51-161 | which items a client may use, and the call that each of them is in a run |
| ArenaCalls.OneScope | base/base_arena.c:147-161 | a scope runs its items and puts the position back |
| ArenaCalls.RunAppend | base/base_arena.c:51-161 | a run is its first part followed by the rest from the state that is left, with the results in order |
| ArenaCalls.HeapAppend | base/base_arena.c:51-161 | the same of the heap, with the results inside and outside scopes |
| ArenaCalls.HeapOne | base/base_arena.c:147-161 | one call has one result; a scope has those of its items, and none outside |
| ArenaRuns.RunAligned | base/base_arena.c:59-67 | with `align` repaired every block of every run starts at an offset that is a multiple of ARENA_ALIGN |
| ArenaRuns.AddressesAligned | tests/test_arena.cc:111-120 | with `align` repaired every address that any run returns is a multiple of ARENA_ALIGN if and only if the base address is |
| ArenaRuns.AlignedAsWritten | base/base_arena.c:59-67 | as written, a block is aligned if and only if the position was |
| ArenaRuns.MisalignedPair | tests/test_arena.cc:111-120 | as written, two one-byte allocations land at 0 and 1, so the promised alignment fails |
| ScopeErasure.ErasurePositions | base/base_arena.c:147-161 | deleting any scopes at any depth changes no returned pointer, no failure and no position outside them, without any condition on the scopes |
| ScopeErasure.ErasesAppend | base/base_arena.c:147-161 | scopes can be deleted in any parts of a run |
| ScopeErasure.ErasesScope | base/base_arena.c:147-161 | a scope can be deleted, or scopes inside it |
| ScopeErasure.AllocationsContained | base/base_arena.c:147-161 | scopes that only allocate, at any depth, are contained |
| ScopeErasure.ScopeRestores | base/base_arena.c:147-161 | ending a scope that stayed above its start gives back exactly the earlier blocks, contents and position; only the previous position differs |
| ScopeErasure.Erasure | base/base_arena.c:147-161 | deleting contained scopes at any depth leaves the same results and the same blocks with the same contents |
| ScopeErasure.BufferErasure | base/base_arena.c:147-161 | the same on the buffers: after both runs every live block holds the same bytes at the same place |
| ScopeErasure.EscapingScope | base/base_arena.c:92-96 | a scope that clears the arena and allocates overwrites an outer block, so containment is needed for contents |
| MixedErasure.ResizeSameView | base/base_arena.c:116-130 | on heaps that differ in the previous position alone, a repaired resize does the same if and only if both previous positions name the block, or neither does, or neither way there is room and neither way crashes |
| MixedErasure.ErasureWithResizes | base/base_arena.c:100-161 | in runs with repaired resizes, deleting contained scopes at any depth leaves the same results and the same blocks with the same contents if every resize is safe in that sense |
| MixedErasure.ScopeMovesResize | base/base_arena.c:157-161 | a scope with one allocation turns a later resize in place into a relocation |
| MemArena.ArenaAllocator.constructor | base/base_arena.c:32-35 | the initial state |
| MemArena.ArenaAllocator.Alloc | base/base_arena.c:51-75 | the in-place allocation refines the transition, including its fault |
| MemArena.ArenaAllocator.Pop | base/base_arena.c:78-83 | pop never goes below zero |
| MemArena.ArenaAllocator.PopTo | base/base_arena.c:85-90 | pop to a position only moves down |
| MemArena.ArenaAllocator.Clear | base/base_arena.c:92-96 | the position is zero and nothing else changes |
| MemArena.ArenaAllocator.TempBegin | base/base_arena.c:147-155 | the captured position is the current one and nothing changes |
| MemArena.ArenaAllocator.TempEnd | base/base_arena.c:157-161 | only the current position is restored, for any mark whatever |
| MemArena.ArenaAllocator.ResizeAlign | base/base_arena.c:100-137 | resize as written, on the whole record |
| MemArena.ArenaAllocator.GrowInPlace | base/base_arena.c:118-123 | growth in place as written clears bytes of the record, and of the buffer behind it |
| MemArena.ArenaAllocator.ResizeRepaired | base/base_arena.c:100-137 | resize as intended |
| ArenaResize.PrevNamesLast | base/base_arena.c:116 | in every reachable state the previous position can name only the last live block |
| ArenaResize.RepairedInPlace | base/base_arena.c:116-123 | repaired: when the previous position names the block and there is room, it keeps its first bytes, its new tail is zero and all other blocks are unchanged; without room nothing changes |
| ArenaResize.RepairedRelocates | base/base_arena.c:125-130 | repaired: otherwise the caller gets a new block with the kept bytes and zeros, or NULL without room, and no live block changes |
| ArenaResize.ResizeNullAgrees | base/base_arena.c:110-113 | repaired: a resize of NULL or from no bytes is an allocation |
| ArenaResize.AsWrittenNull | base/base_arena.c:110-113 | the same as written, with the record unchanged |
| ArenaResize.ResizeOutside | base/base_arena.c:114-136 | a resize of an address outside the buffer changes nothing and returns NULL, in both forms |
| ArenaMixedRuns.MixedRunRefines | base/base_arena.c:51-161 | over every run that mixes allocations, pops, scopes and client writes with repaired resizes of any live block, of NULL or from no bytes, and of addresses outside the buffer, the buffer returns the pointers, holds the contents and crashes like the list of independent blocks |
| ArenaMixedRuns.OneStep | base/base_arena.c:100-137 | the call with its arguments that each step is |
| ArenaMixedRuns.MixedAppend | base/base_arena.c:51-161 | a run is its first part followed by the rest from the state that is left, with the results in order |
| ArenaResize.AsWrittenLosesBlock | base/base_arena.c:125-136 | as written, relocation fills the same block but returns NULL, and breaks without room |
| ArenaResize.AsWrittenInPlaceExact | base/base_arena.c:116-123 | as written, resize in place leaves a sound arena if and only if the block does not grow, or grows by at most seven bytes inside the buffer that are already zero while the new position ends in as many zero bytes |
| Decimal.ParseU64 | base/base_parse.c:27-43 | the value of the longest digit prefix, modulo 2^64 |
| Decimal.IsNumeric | base/base_parse.c:51-62 | true if and only if all characters before the NUL are digits, so also for the empty string |
| Decimal.WriteInt | base/base_test.c:4-17 | the recursion appends sign and digits, most significant first |
| Decimal.RoundTrip | base/base_parse.c:27-43 | a printed 64-bit number followed by nothing or a non-digit parses to itself |
| Decimal.WriteParse | base/base_test.c:4-17 | parsing undoes printing if and only if the number is not negative |
| Decimal.WriteNegative | base/base_test.c:4-17 | a negative number is printed as a minus sign and digits that parse to its magnitude |
| Decimal.DigitBytes | base/base_parse.c:35-38 | the digits are the ten bytes from 48 to 57 |
| Decimal.NumberIsSum | base/base_parse.c:27-43 | a number is the sum of its digits with their zeros behind them |
| Decimal.ParsedExact | base/base_parse.c:27-43 | for every text: the value of the leading digits modulo 2^64, also when it exceeds 64 bits |
| DigitRuns.ScanRun | libres/resources.cc:174-178 | the inner loop reads one run, or reports that it exceeds int |
| DigitRuns.ScanText | libres/resources.cc:167-189 | the outer loop returns the maximum over the runs unless one exceeds int |
| DigitRuns.ScanMax | libres/resources.cc:167-191 | the same for every NUL-terminated buffer |
| DigitRuns.ScanMeaning | libres/resources.cc:167-191 | that maximum bounds the value of every maximal digit run of the text and is attained, or is 0 |
| DigitRuns.ScanFindsHighest | libres/resources.cc:155-191 | on every rendered CPU list such as "0-3,5" the greatest run is the highest index, and a run exceeds int if and only if that index does |
| DigitRuns.ScanRendered | libres/resources.cc:155-191 | the scan of a buffer with a rendered CPU list returns the highest index, or overflows if and only if that index exceeds int |
| DigitRuns.RenderedExample | libres/resources.cc:155-191 | the bytes of the list "0-3,5" |
| DigitRuns.CountsAreSizes | libres/resources.cc:155-191 | the two counts used below are the sizes of the set of CPUs listed and of the set of indices left out below the highest |
| DigitRuns.CoresIsTheCount | libres/resources.cc:155-191 | for every nonempty ascending list the greatest number in its text is the number of CPUs listed if and only if exactly one index below the highest is left out |
| DigitRuns.StoredCores | libres/resources.cc:167-191 | the scan of a buffer with such a list overflows if and only if the highest index exceeds int, and otherwise stores the number of CPUs if and only if exactly one index below the highest is left out |
| DigitRuns.CoresIsAnIndex | libres/resources.cc:191 | for the list "0-n" the stored number of cores is n, one less than the CPUs listed |
| Records.PartitionRoundTrip | libres/resources.h:60-67 | the 48 bytes of a partition decode to the partition |
| Records.PartitionBytes | libres/resources.h:60-67 | which bytes of a record hold which field of a partition |
| Records.ByteOf | libres/resources.h:60-67 | integers are stored least significant byte first |
| Records.ToPartition | libres/resources.cc:505-510 | the numbers are copied, and the name is the prefix of the scanned one of at most 31 bytes |
| Records.FilledSlot | libres/resources.cc:613-618 | over any slot contents the assigned fields read as the process id, an empty name and zeros |
| Records.SlotLayout | libres/resources.h:43-51 | which bytes of a slot are assigned what, with all others unchanged |
| Records.PidOfNumber | libres/resources.cc:613 | any printed number becomes the process id if and only if it is below 2^31 |
| Records.PidExact | libres/resources.cc:613 | for every name: the 32-bit integer congruent to the value of its leading digits |
| Records.ToI32Congruent | libres/resources.cc:613 | the cut to 32 bits is congruent to the number |
| Records.NameOfNumber | libres/resources.cc:596 | the name of a printed number is numeric and ends at its NUL |
| RecordList.SizesDoNotWrap | libres/resources.cc:20-33 | doubled capacity and byte size never wrap for an array that lies in an arena |
| RecordList.ReserveGrows | libres/resources.cc:18-44 | growth keeps all records and touches no other byte in use |
| RecordList.ReserveFull | libres/resources.cc:33-35 | growth fails if and only if the doubled array does not fit, and never faults |
| RecordList.GrowthByAlloc | libres/resources.cc:18-36 | a full list grows if and only if an allocation of twice its records, or of eight, finds room, and then has that array |
| RecordList.PutAppends | libres/resources.cc:46 | filling the next slot appends one record |
| RecordList.ContentsBytes | libres/resources.cc:46 | record i of a list is the 48 bytes from 48 * i on |
| RecordList.OthersKept | libres/resources.cc:15-47 | what keeping the other bytes means for a single byte |
| ListRuns.PushAppends | libres/resources.cc:15-47 | a push without room changes nothing; any other push appends exactly its record |
| ListRuns.FullStaysFull | libres/resources.cc:34-35 | after one failed growth every later push fails too and nothing changes |
| ListRuns.PushAllExtends | libres/resources.cc:482-513 | after any number of pushes the list is the old list followed by a prefix of the entries in order, and the prefix is shorter only if the next doubling does not fit |
| ListRuns.PushAllKeepsOthers | libres/resources.cc:15-47 | bytes in use that do not belong to the list survive any number of pushes |
| ListRuns.GrowthAccount | libres/resources.cc:18-46 | from an empty list the capacity is 0 or 8 times a power of two, the copies are the capacity less 8 and below twice the records when there are more than 8, and the bytes taken are exactly (2 * capacity - 8) records |
| ResourceLists.RecordArray.constructor | libres/resources.cc:446-450 | a new list is empty |
| ResourceLists.RecordArray.Grow | libres/resources.cc:599-609 | growth in place of the fields; copying `capacity` records is copying `count` records |
| ResourceLists.RecordArray.ReplaceArray | libres/resources.cc:599-609 | the new array, the copied records and the three fields, or nothing changed without room |
| ResourceLists.RecordArray.MoveRecords | libres/resources.cc:37-40 | the copy of the records into the new array |
| ResourceLists.RecordArray.PushPartition | libres/resources.cc:15-47 | the in-place push refines the transition and never faults |
| ResourceLists.PartitionsExact | libres/resources.cc:482-512 | the records to append are as many as the lines that were understood, and each such line has its record at its place among them |
| ResourceLists.RecordArray.ReadPartitions | libres/resources.cc:482-513 | the old list stays, and the j-th line that was understood is the record behind it at its place among them, lines that were not are skipped, all of them unless the arena is full; other bytes in use stay |
| ResourceLists.RecordArray.PushPartitions | libres/resources.cc:482-513 | the loop, in terms of the entries to push |
| ResourceLists.RecordArray.AppendProcess | libres/resources.cc:599-618 | one process is appended, or nothing changes |
| ResourceLists.RecordArray.PutProcess | libres/resources.cc:611-618 | the fields of the next slot are assigned |
| ResourceLists.RecordArray.Start | libres/resources.cc:581-592 | a list without an array gets one of eight slots, or the call fails with the arena unchanged |
| ResourceLists.NumericNames | libres/resources.cc:594-613 | the processes to append are as many as the names of digits alone, and each such name has its process id at its place among them |
| ResourceLists.RecordArray.CollectProcesses | libres/resources.cc:569-623 | the old list stays, and each numeric name has behind it, at its place among them, a record that reads as its process id, an empty name and zeros, all of them unless the arena is full; other names are skipped; bytes that were in use before the call and not part of the list stay as they were |
| ResourceLists.RecordArray.AppendProcesses | libres/resources.cc:594-619 | the loop alone, on a list that has an array |
| ProcText.LinesJoin | base/base_parse.c:98-139 | the lines with their newlines and the unterminated rest are the text again |
| ProcText.LinesHaveNoNewline | base/base_parse.c:104-138 | no line contains a newline |
| ProcText.SplitExact | base/base_parse.c:98-118 | the first colon (58) ends the key, and spaces (32) and tabs (9) before the value are skipped |
| ProcText.SplitNone | base/base_parse.c:98-106 | a line is no pair if and only if it has no colon |
| ProcText.PairsCount | base/base_parse.c:104-134 | there are as many pairs as lines with a colon |
| ProcText.PairsExact | base/base_parse.c:104-134 | each line with a colon has its pair at its place among them; lines without one are skipped |
| ProcText.EntryLayout | base/base_parse.h:18-22 | the 32 bytes of an entry: at most 15 of the value, at most 14 of the key, which loses its last byte, and zeros |
| Ranks.RankIsSize | base/base_parse.c:132-133 | the place of an element is the number of kept elements before it |
| ProcFile.StoreEntry | base/base_parse.c:126-130 | key and value go into a cleared entry, whose fields stay NUL-padded although the NUL of the key is one byte behind its text |
| ProcFile.CutLine | base/base_parse.c:108-127 | the bytes copied for a line are those of the entry of its pair |
| ProcFile.SkipBlanksFrom | base/base_parse.c:114-118 | the first position that is neither a space nor a tab |
| ProcFile.FinishLine | base/base_parse.c:106-134 | a line with a colon adds its pair, unless its key is empty, the array is full or there is none |
| ProcFile.ScanLines | base/base_parse.c:94-139 | the single pass stores exactly the pairs of the lines that have a colon in a cleared array and touches no other byte; it goes wrong if and only if a key is empty, there are more than 256 pairs, or there are pairs and no array |
| ProcFile.ReadFile | base/base_parse.c:81-83 | the buffer in the arena holds the text that was read, and no byte in use changes |
| ProcFile.PlaceFile | base/base_parse.c:91-92 | record and array are placed behind the buffer, the array cleared, each if there is room |
| ProcFile.ParseProcFile | base/base_parse.c:81-141 | for every file, every arena and every contents of its memory: NULL if and only if the file is empty; a crash if and only if there is no room for buffer and record, a key is empty, there are more than 256 pairs, or there are pairs and no room for the array; otherwise the array holds exactly the pairs of the lines read, cut and padded, the buffer holds the text, and no byte that was in use changes |
| ProcFile.ParsedExact | base/base_parse.c:81-141 | the result in numbers: 4096, 16 and 8192 bytes, at most 256 pairs, and exactly when it is NULL, a crash or a file |
| ProcFile.TableEntry | base/base_parse.c:92-133 | entry i is the 32 bytes from 32 * i on, and zeros if there is no pair i |
| ProcRoundTrip.StoredExactly | base/base_parse.c:108-130 | a stored key reads as at most 14 bytes of the key and never as all of it, and a stored value as at most 15 bytes, so as the value if and only if it has at most 15 |
| ProcRoundTrip.CompleteAll | base/base_parse.c:82 | all rendered lines are complete in n bytes if and only if the rendered text fits in them |
| ProcRoundTrip.RenderedParsable | base/base_parse.c:94-139 | a rendered text that was cut anywhere has exactly the pairs of its complete lines, and is parsable if and only if these are at most 256 |
| ProcRoundTrip.RoundTrip | base/base_parse.c:91-139 | entry i of the parsed array reads as the i-th rendered key and value |
| ProcRoundTrip.ParseRendered | base/base_parse.c:81-141 | parsing what was rendered, in any arena with room, returns the pairs of the lines that fit in the buffer, with the same keys and values in order, and crashes if and only if they are more than 256 |

## Left out

- `arena_create`, `arena_destroy`, `stack_create`, `stack_destroy`: system calls; only the initial state is modelled, with a mapping that ends below 2^62.
- Files, directories, `sscanf`, `fgets`, `readdir`, `read`: the bytes, scanned lines and names they deliver are parameters. A failing `read` is not modelled; one `read` delivers the first 4096 bytes.
- `proc_file`: its block is allocated, and its two fields are the result of the model instead of bytes in that block.
- ArenaHeap.RunLaid: a position beyond the capacity, which `temp_arena_end` would store unchecked, is skipped in runs; the call alone is modelled for every position.
- NULL arguments: the early returns for a missing arena, path or list.
- `arena_resize_align`, `arena_resize`: the alignment parameter has no effect in the code and is not a parameter of the model. Resizes inside a nested scope are not part of the arena runs; between scopes, and inside scopes written as begin and end, they are.
- `write_int` of the least `i32`: negating it is undefined in C, so the model requires its absence.
- `fs_read`, `device_up_time`, `cpu_read_usage`, `process_read`, `process_kill`: straight-line arithmetic, branch tables and wrappers of system calls, which would only add easy members.
- `compare_string`, `libnet/`, `libpkg/`, `libvm/`, `forge/`, `auth/`, `dbus/`, `journal/`, `grpc/`: comparisons of two characters, stubs, server plumbing and wrappers of libraries that are not part of this model.
- Pointer provenance, page permissions and concurrent use of one allocator.
