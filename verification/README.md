# STM32MP157 ECU firmware: verified models of its register, boot and inter-core code

The firmware of this ECU runs on the Cortex-M4 of an STM32MP157 beside Linux on the
Cortex-A7. These Dafny modules model the parts of it where a wrong bit or a wrong order does
damage: the CMSIS headers that pack registers, and the small stateful modules that share
hardware or memory.

| file | what it models |
|---|---|
| `Options.dfy` | a value that may be missing |
| `Words.dfy` | 32-bit words as numbers; `&`, `\|`, `~`, `<<`, `>>` defined bit by bit, and what they mean arithmetically |
| `BitOps.dfy` | the software `__RBIT`, `__CLZ`, `__ROR`, `__SSAT`, `__USAT` |
| `NvicPriority.dfy` | priority grouping and the two layouts of the priority registers |
| `NvicLines.dfy` | enable and pending bits behind write-one registers |
| `MpuV7.dfy`, `MpuV8.dfy` | loading an MPU region table through a window of register aliases |
| `Startup.dfy` | the copy and zero tables of `__cmsis_start` |
| `Mailbox.dfy`, `MailboxPoll.dfy` | the IPCC mailbox between A7 and M4: a step system, and the C code as runs of it |
| `PeriphLock.dfy` | the peripheral lock over hardware semaphores |
| `Sbrk.dfy` | `_sbrk` |
| `TraceLog.dfy` | the trace ring buffer |
| `HeapRows.dfy`, `HeapList.dfy`, `Heap4.dfy`, `HeapRuns.dfy` | the FreeRTOS heap_4 allocator: what it does to a row of blocks, its free list in the block headers, the C code, and whole runs of calls |

Conventions. A C `uint32_t` is `word`, a number below 2^32, and `Wrap` is written out wherever
C wraps. Code that changes registers, memory or globals is a class, or a method with loops,
proved against a function; claims over whole runs are lemmas about those functions, for every
sequence of calls or steps. In the concurrent modules the classes record the steps they take,
and their invariant says that the record is a run of the step system, so the lemmas about runs
hold of every execution of the code, whatever other cores and interrupts do in between.

Claims the code does not support are stated with the exact condition under which they hold:

* A poll can forget an acknowledged message (`LostWakeUpWitness`); `StrandedIff` says exactly
  which schedules do it.
* Two concurrent callers of `MAILBOX_Notify` can lose a notification; `NoOverwriteIff`.
* `_sbrk` has no lower bound check (`DropsBelowEndIff`), and its wrapped test decides like the
  integer test exactly for limits up to 2^31 (`GuardExactIff`); the linker script's is.
* The IAR `__ROR` is defined, and agrees with the GCC one, exactly for amounts 1..31.
* A start-up copy entry is faithful exactly when it does not overwrite its own source.
* A split never leaves a free block below 24 bytes, but releasing a small one can
  (`NoSmallFreeIff`).
* Enough free heap need not serve a request (`FragmentedRefusal`); it does exactly while there
  is at most one free block (`FreeBytesServeIff`).
* `ARM_MPU_ACCESS_NORMAL` is documented to reflect the inner cache policy in the C bit; the
  bit is clear for every policy (`NormalAccessReflectsPolicyIff`). The model follows the code.

The hardware is modelled as its manuals describe it: priority grouping in section B1.5.4 and
the PMSAv7 MPU in section B3.5 of the Armv7-M Architecture Reference Manual (Arm DDI 0403).
Under PMSAv7 the RBAR/RASR aliases act on the region RNR selects, and an RBAR write with VALID
set first moves RNR; under PMSAv8 alias `n` is region RNR + n of an aligned window.

`dafny verify dfyconfig.toml` checks everything.

## Model

| member | source | states |
|---|---|---|
| `BitOps.RbitGcc` | Drivers/CMSIS/Include/cmsis_gcc.h:1048-1069 | for every word, bit i of the result is bit 31-i of the input, although the loop starts from the unmasked value and leaves early; the counter does not underflow and the loop ends |
| `BitOps.RbitIar` | Drivers/CMSIS/Include/cmsis_iccarm.h:540-551 | the same of the IAR loop, with its 8-bit counter |
| `BitOps.ReversalUnique` | Drivers/CMSIS/Include/cmsis_iccarm.h:540-551 | a word has one reversal, so the two loops agree |
| `BitOps.ReversalInvolution` | Drivers/CMSIS/Include/cmsis_gcc.h:1048-1069 | reversing twice gives the word back |
| `BitOps.Clz` | Drivers/CMSIS/Include/cmsis_iccarm.h:525-538 | the loop ends, with 2^(31-c) <= v < 2^(32-c), or 32 for zero |
| `BitOps.ClzOfReversalIsCtz` | Drivers/CMSIS/Include/cmsis_iccarm.h:525-551 | leading zeros of the reversal are trailing zeros of the word |
| `BitOps.RorMovesBits` | Drivers/CMSIS/Include/cmsis_gcc.h:1021-1029 | rotating by a brings bit (i + a) mod 32 to place i, for every 32-bit a |
| `BitOps.RorCompose` | Drivers/CMSIS/Include/cmsis_gcc.h:1021-1029 | two rotations are one by the wrapped sum of the amounts |
| `BitOps.RorInverse` | Drivers/CMSIS/Include/cmsis_gcc.h:1021-1029 | rotating on by 32 - a mod 32 undoes a rotation by a |
| `BitOps.RorIarDefinedIff` | Drivers/CMSIS/Include/cmsis_iccarm.h:615-618 | the IAR form shifts by less than the word width, and equals the GCC form, exactly for amounts 1..31 |
| `BitOps.SaturationIsNearest` | Drivers/CMSIS/Include/cmsis_gcc.h:1382-1422 | saturating yields the nearest value of the signed or unsigned field |
| `BitOps.SaturationsNest` | Drivers/CMSIS/Include/cmsis_gcc.h:1382-1398 | saturating at m and then n bits is saturating at the smaller |
| `NvicPriority.FieldsSharePriorityBits` | Drivers/CMSIS/Include/core_armv81mml.h:2431-2436 | preemption and sub-priority bits add up to the implemented bits, despite the wrapping subtraction |
| `NvicPriority.FieldWidths` | Drivers/CMSIS/Include/core_armv81mml.h:2431-2436 | in numbers: group g gives preemption the smaller of 7 - g mod 8 and P bits, and the sub-priority the rest |
| `NvicPriority.EncodeValue` | Drivers/CMSIS/Include/core_armv81mml.h:2429-2442 | the packed priority is the two reduced fields as a two-digit number below 2^P |
| `NvicPriority.DecodeEncode` | Drivers/CMSIS/Include/core_armv81mml.h:2429-2467 | decoding what was encoded gives both fields back, reduced to their widths |
| `NvicPriority.EncodeDecode` | Drivers/CMSIS/Include/core_armv81mml.h:2429-2467 | encoding what was decoded gives the priority modulo 2^P |
| `NvicPriority.EncodeIsOrderIsomorphism` | Drivers/CMSIS/Include/core_armv81mml.h:2429-2442 | on fields that fit, encoding is one-to-one, stays below 2^P, and orders exactly as preemption level and then sub-priority do |
| `NvicPriority.EncodeIsOnto` | Drivers/CMSIS/Include/core_armv8mbl.h:1499-1512 | every number below 2^P is the encoding of fields that fit |
| `NvicPriority.BinaryPoint` | Drivers/CMSIS/Include/core_armv81mml.h:2454-2467 | the preemption field of a priority is what lies above the group's binary point in the stored byte, for every group and P |
| `NvicPriority.PreemptsIff` | Drivers/CMSIS/Include/core_armv81mml.h:2382-2442 | one encoded and stored priority preempts another exactly if its preemption level is the smaller, whatever the sub-priorities |
| `NvicPriority.HandlerIndexInRangeIff` | Drivers/CMSIS/Include/core_armv8mbl.h:1239-1241 | the wrapping index macros stay inside SHPR exactly for the configurable handlers |
| `NvicPriority.LevelValue` | Drivers/CMSIS/Include/core_armv81mml.h:2382-2415 | the stored byte is the priority modulo 2^P moved to the top, and reading moves it back |
| `NvicPriority.PackedWordFields` | Drivers/CMSIS/Include/core_armv8mbl.h:1449-1461 | the read-modify-write replaces one 8-bit field of the word and keeps the other three |
| `NvicPriority.FieldPlaces` | Drivers/CMSIS/Include/core_armv8mbl.h:1239-1241 | in numbers: which byte of which word, or which byte, belongs to an interrupt or handler |
| `NvicPriority.PackedNvic.SetPriority` | Drivers/CMSIS/Include/core_armv8mbl.h:1449-1461 | the call changes the field of its own interrupt and of no other, and indexes in range |
| `NvicPriority.PackedNvic.GetPriority` | Drivers/CMSIS/Include/core_armv8mbl.h:1473-1484 | reads the priority held in the interrupt's field |
| `NvicPriority.ByteNvic.SetPriority` | Drivers/CMSIS/Include/core_armv81mml.h:2382-2392 | the same for the byte-wide registers, which hold the handlers from -12 on |
| `NvicPriority.ByteNvic.GetPriority` | Drivers/CMSIS/Include/core_armv81mml.h:2404-2415 | the same for the byte-wide registers |
| `NvicPriority.PackedHoldsLastPriority` | Drivers/CMSIS/Include/core_armv8mbl.h:1449-1484 | after every sequence of calls, the packed file holds for each interrupt the last priority written to it |
| `NvicPriority.BytesHoldLastPriority` | Drivers/CMSIS/Include/core_armv81mml.h:2382-2415 | so does the byte file |
| `NvicPriority.PackedRefinesBytes` | Drivers/CMSIS/Include/core_cm0plus.h:850-885 | over every sequence of calls the packed file, of 8 or of 124 words, and the byte file hold the same bytes |
| `NvicPriority.PackedRoundTrip` | Drivers/CMSIS/Include/core_armv8mbl.h:1449-1537 | encode, set, any sets of other interrupts, get, decode: both fields come back, for every group and P, whatever was called before |
| `NvicPriority.ByteRoundTrip` | Drivers/CMSIS/Include/core_armv81mml.h:2382-2467 | the same from the byte file |
| `NvicLines.GetReturnsLastCall` | Drivers/CMSIS/Include/core_armv81mml.h:2187-2282 | after every sequence of enable, disable, set-pending and clear-pending calls, each Get is 1 exactly when the last matching call on that line was the setting one |
| `NvicLines.GetReadsBit` | Drivers/CMSIS/Include/core_armv81mml.h:2204-2214 | a Get reads bit irq mod 32 of word irq / 32 |
| `NvicLines.NvicRegisters.EnableIRQ` | Drivers/CMSIS/Include/core_armv81mml.h:2187-2193 | one write-one-to-set store sets the enable bit of one line and leaves every other line; nothing for exceptions |
| `NvicLines.NvicRegisters.DisableIRQ` | Drivers/CMSIS/Include/core_armv81mml.h:2223-2231 | one write-one-to-clear store clears the enable bit of one line and leaves every other |
| `NvicLines.NvicRegisters.SetPendingIRQ` | Drivers/CMSIS/Include/core_armv81mml.h:2261-2267 | as for enable, on the pending bits |
| `NvicLines.NvicRegisters.ClearPendingIRQ` | Drivers/CMSIS/Include/core_armv81mml.h:2276-2282 | as for disable, on the pending bits |
| `MpuV7.MpuRegisters.OrderedMemcpy` | Drivers/CMSIS/Include/mpu_armv7.h:248-255 | feeds the source words to consecutive window registers, in order |
| `MpuV7.MpuRegisters.SetRegionRegisters` | Drivers/CMSIS/Include/mpu_armv7.h:225-229 | writes RBAR and then RASR, and nothing else |
| `MpuV7.MpuRegisters.Load` | Drivers/CMSIS/Include/mpu_armv7.h:261-270 | for every table and every number of aliases, chunked loading has the effect of setting the rows one by one; word i goes to window position i modulo the window, and nothing else is written |
| `MpuV7.FeedIsSetRows` | Drivers/CMSIS/Include/mpu_armv7.h:225-255 | copying rows word by word through the window is setting them one by one |
| `MpuV7.FlatWords` | Drivers/CMSIS/Include/mpu_armv7.h:225-255 | a table is read RBAR first and RASR second, row by row |
| `MpuV7.LastNamingRowWins` | Drivers/CMSIS/Include/mpu_armv7.h:225-270 | with VALID in every row, a region ends as the last row naming it says, or as it was |
| `MpuV7.BaseValue` | Drivers/CMSIS/Include/mpu_armv7.h:225-229 | the base a region gets is the address written, rounded down to 32 bytes |
| `MpuV7.SelectedRegion` | Drivers/CMSIS/Include/mpu_armv7.h:225-229 | with VALID clear, the region RNR selects is set and no other |
| `MpuV7.LoadedRegion` | Drivers/CMSIS/Include/mpu_armv7.h:75-78 | loading a table built with the macro leaves each region it names at the address, and with the attributes, of the last row to name it |
| `MpuV7.RbarBits` | Drivers/CMSIS/Include/mpu_armv7.h:75-78 | every bit of the macro's value: address, VALID, region, for either width of the address field |
| `MpuV7.RbarNamesRegion` | Drivers/CMSIS/Include/mpu_armv7.h:75-78 | a row built with the macro is VALID and names the region asked for, modulo 16 |
| `MpuV7.RbarNamesBase` | Drivers/CMSIS/Include/mpu_armv7.h:75-78 | and asks for the address with the bits below its field cleared |
| `MpuV7.RasrBits` | Drivers/CMSIS/Include/mpu_armv7.h:103-109 | every bit of the macro's value: no field spills into another, and the region is enabled |
| `MpuV7.NormalAccessReflectsPolicyIff` | Drivers/CMSIS/Include/mpu_armv7.h:146-157 | the C bit is always clear, so it reflects the inner policy exactly when the policy's bit 1 is clear; B reflects bit 0 |
| `MpuV7.NormalAccessBits` | Drivers/CMSIS/Include/mpu_armv7.h:157 | every bit of the macro's value: TEX reflects the outer policy, S the argument |
| `MpuV8.MaskAligns` | Drivers/CMSIS/Include/mpu_armv8.h:305-306 | for a power of two the mask and the remainder split the region number into window and offset |
| `MpuV8.LoadEx` | Drivers/CMSIS/Include/mpu_armv8.h:298-321 | wherever in a window the range starts and however many windows it crosses, row i becomes region rnr + i, no other region changes, and RNR is left at the last row's window |
| `MpuV8.LoadFromPlaces` | Drivers/CMSIS/Include/mpu_armv8.h:309-319 | going window by window places all remaining rows one after another |
| `MpuV8.WindowPositions` | Drivers/CMSIS/Include/mpu_armv8.h:298-321 | which position of the window is RBAR or RLAR of which region, and which word of the table goes there |
| `Startup.CmsisStart` | Drivers/CMSIS/Include/cmsis_gcc.h:151-161 | the nested loops carry out the copy entries and then the zero entries, word by word |
| `Startup.CopyFaithfulIff` | Drivers/CMSIS/Include/cmsis_gcc.h:152-154 | an entry is copied faithfully from every memory exactly when its destination does not start inside its source |
| `Startup.StartupEstablishesImage` | Drivers/CMSIS/Include/cmsis_gcc.h:151-161 | for disjoint destinations every destination ends with the original source words, every zero range is zero, every other word is unchanged; a later entry may even reuse a source |
| `Mailbox.HistoryExplainsState` | CM4/OPENAMP/mbox_ipcc.c:104-143 | in every run each part of a channel's state is decided by which of its steps came last |
| `Mailbox.StrandedIff` | CM4/OPENAMP/mbox_ipcc.c:113-136 | exactly which schedules leave an acknowledged message behind: pushed, announced and taken between the last drain and the clear |
| `Mailbox.QuietWindowLosesNothing` | CM4/OPENAMP/mbox_ipcc.c:104-143 | with no interrupt between drain and clear, a non-empty virtqueue is always about to be announced, announced, or flagged, on either channel |
| `Mailbox.LostWakeUpWitness` | CM4/OPENAMP/mbox_ipcc.c:124-133 | a run of channel 2 that strands a message |
| `Mailbox.InterruptCommitsPoll` | CM4/OPENAMP/mbox_ipcc.c:113-136 | in any run at all, once an interrupt is taken outside the window the flag stays until the drain, and the next test of that channel leads to it |
| `Mailbox.FlaggedIsDelivered` | CM4/OPENAMP/mbox_ipcc.c:113-136 | in any run at all, once a channel is flagged outside the window, a later poll that has tested it and passed its drain has delivered everything sent before |
| `Mailbox.LaterInterruptRescues` | CM4/OPENAMP/mbox_ipcc.c:113-136 | so an interrupt followed by a poll delivers whatever was stranded |
| `Mailbox.DeliveredInOrder` | CM4/OPENAMP/mbox_ipcc.c:113-136 | nothing is lost, doubled or reordered, and after a drain everything sent so far is delivered |
| `Mailbox.HandlerCallsNeedInterrupts` | CM4/OPENAMP/mbox_ipcc.c:113-136 | on each channel handler calls never outnumber interrupts taken |
| `Mailbox.HandlerCallHasFreshInterrupt` | CM4/OPENAMP/mbox_ipcc.c:113-136 | every handler call has an interrupt since the flag was last cleared |
| `MailboxPoll.Board.CallbackSetsFlag` | CM4/OPENAMP/mbox_ipcc.c:196-207 | the first half of a callback is one Enter step, with its effect |
| `MailboxPoll.Board.CallbackAcknowledges` | CM4/OPENAMP/mbox_ipcc.c:209-234 | the second half is one Ack step, with its effect |
| `MailboxPoll.Board.Interference` | CM4/OPENAMP/mbox_ipcc.c:196-234 | what the A7 and the handler do between two statements only fills queues and sets flags, and the handler has returned before the thread goes on |
| `MailboxPoll.Board.VisitChannel` | CM4/OPENAMP/mbox_ipcc.c:113-119 | one of the two `if` statements: a flagged channel is drained, then its flag cleared, and the other channel is left alone |
| `MailboxPoll.Board.Poll` | CM4/OPENAMP/mbox_ipcc.c:104-143 | with any A7 and interrupt activity between its statements, Poll extends the run by exactly the steps of its two visits, delivers all that was queued at a flagged channel, and returns 0 exactly when it called a handler |
| `MailboxPoll.TxLine.Announce` | CM4/OPENAMP/mbox_ipcc.c:172-180 | whatever the A7 and other notifiers do meanwhile, all readings but the last find the channel occupied; the notification follows the first that does not, and is a run of the transmit steps |
| `MailboxPoll.Notify` | CM4/OPENAMP/mbox_ipcc.c:150-189 | -1 exactly for an unknown vring, and then nothing happens; otherwise one such notification, on the vring's channel and no other |
| `MailboxPoll.NoOverwriteIff` | CM4/OPENAMP/mbox_ipcc.c:172-180 | notifications sent = acknowledged + standing in the flag, in every run, exactly when at most one caller notifies |
| `MailboxPoll.ExchangesSucceed` | CM4/OPENAMP/mbox_ipcc.c:172-180 | one notifier gets any number of notifications through |
| `PeriphLock.IndexFacts` | CM4/Core/Src/lock_resource.c:34-46 | the macro names a semaphore exactly for GPIO banks and EXTI; all banks share one, EXTI has its own |
| `PeriphLock.HolderOwns` | CM4/Core/Src/lock_resource.c:61-93 | in every run, whoever has returned from the lock and not unlocked owns the semaphore |
| `PeriphLock.OwnerHasIt` | CM4/Core/Src/lock_resource.c:61-93 | and only a core that has it so, or has won it and is about to return, owns it |
| `PeriphLock.TakeRefusedIff` | CM4/Core/Src/lock_resource.c:70-80 | in every run a take is refused exactly if another core has the semaphore |
| `PeriphLock.MutualExclusion` | CM4/Core/Src/lock_resource.c:61-93 | at no point of any run do two cores hold the same index |
| `PeriphLock.UnlockComesBetween` | CM4/Core/Src/lock_resource.c:61-93 | between one core's return and another's on the same index, the first has unlocked |
| `PeriphLock.ElapsedIsSound` | CM4/Core/Src/lock_resource.c:67-73 | the wrapped tick difference never exceeds the true one, for every start tick, and equals it below 2^32 |
| `PeriphLock.ExpiredMeansTimeIsUp` | CM4/Core/Src/lock_resource.c:73 | the time-out test never fires early, and fires on time until the counter has gone round |
| `PeriphLock.Cores.OthersRun` | CM4/Core/Src/lock_resource.c:61-93 | a core that does not act is where it was and holds what it held |
| `PeriphLock.Cores.Lock` | CM4/Core/Src/lock_resource.c:61-81 | extends the run by exactly its own steps and those of the others; each turn is refused exactly if another core has the semaphore, so a free one is got at the first turn with any time-out; returns only OK and only as the owner; enters Error_Handler only after a refused take with no waiting wanted or truly more than Timeout ticks gone; all earlier turns were in time; cores that do not act are left alone |
| `PeriphLock.Cores.UnlockPeripheral` | CM4/Core/Src/lock_resource.c:88-93 | one step, which frees the semaphore if the caller owns it; other cores keep what they hold |
| `Sbrk.Heap.Sbrk` | CM4/Core/Src/sysmem.c:54-81 | a granted call returns the old break and moves it; a refused one changes only errno |
| `Sbrk.GuardExactIff` | CM4/Core/Src/sysmem.c:69-74 | the wrapped pointer test decides like 0 <= break + incr <= limit, for every break and increment, exactly when limit <= 2^31 |
| `Sbrk.LinkedLayoutIsSafe` | CM4/STM32MP157DACX_RAM.ld:42-54 | the limit of this board is below 2^31 |
| `Sbrk.DropsBelowEndIff` | CM4/Core/Src/sysmem.c:63-77 | exactly when a call leaves the break below _end, and when the stored pointer becomes NULL and the next call starts over |
| `Sbrk.BreakIsGrantedSum` | CM4/Core/Src/sysmem.c:54-81 | over every run that never gives back more than it got, the break is _end plus the granted increments, within its limits |
| `Sbrk.LiveBlocksTileHeap` | CM4/Core/Src/sysmem.c:54-81 | over every such run the unreleased blocks tile the heap from _end to the break, so they are adjacent and disjoint |
| `Sbrk.TilesOrdered` | CM4/Core/Src/sysmem.c:54-81 | blocks that tile a range lie inside it, pairwise disjoint and in order |
| `TraceLog.TraceBuffer.LogBuff` | CM4/OPENAMP/openamp_log.c:59-70 | each call stores its character, modulo 256, and a terminator behind it, changes no other byte, and keeps the buffer a faithful view of the history |
| `TraceLog.ReaderSeesTail` | CM4/OPENAMP/openamp_log.c:59-70 | after any history: the offset in closed form, the newest characters before the terminator, and, once wrapped, the ones before them behind it |
| `TraceLog.BehindTerminator` | CM4/OPENAMP/openamp_log.c:59-70 | the bytes the history does not decide: unchanged behind the terminator before wrapping, and a zero last byte afterwards |
| `Heap4.Heap.constructor` | Middlewares/Third_Party/FreeRTOS/Source/portable/MemMang/heap_4.c:329-374 | whatever the alignment of the array, the heap starts as one aligned free block that wastes less than one alignment unit at either end, with the end marker behind it |
| `Heap4.Heap.FindBefore` | Middlewares/Third_Party/FreeRTOS/Source/portable/MemMang/heap_4.c:380-387 | the address-order search stops at the last list node below the block |
| `Heap4.Heap.Insert` | Middlewares/Third_Party/FreeRTOS/Source/portable/MemMang/heap_4.c:377-435 | putting a block on the list joins it to the free neighbours it touches, on either side or both, and to nothing else; no header off its path changes |
| `Heap4.Heap.FindFit` | Middlewares/Third_Party/FreeRTOS/Source/portable/MemMang/heap_4.c:163-171 | the walk stops at the first free block that is large enough, or at the end marker, with the node before it |
| `Heap4.Heap.Malloc` | Middlewares/Third_Party/FreeRTOS/Source/portable/MemMang/heap_4.c:113-260 | NULL exactly when no free block can serve the request, and then nothing changed; otherwise the first fit is carved up; list, headers, free total and low-water mark stay right |
| `Heap4.Heap.Free` | Middlewares/Third_Party/FreeRTOS/Source/portable/MemMang/heap_4.c:263-308 | the block with this payload, and no other, is released and joined with its free neighbours; NULL does nothing |
| `HeapList.SpliceJoins` | Middlewares/Third_Party/FreeRTOS/Source/portable/MemMang/heap_4.c:389-434 | the two joining tests and the final relinking leave exactly the list of the joined blocks, in address order |
| `HeapList.Unlinked` | Middlewares/Third_Party/FreeRTOS/Source/portable/MemMang/heap_4.c:183 | redirecting one link takes exactly the found block off the list |
| `HeapList.AfterRelease` | Middlewares/Third_Party/FreeRTOS/Source/portable/MemMang/heap_4.c:293-301 | after a release the headers again describe the whole heap: list, marks and end marker |
| `HeapList.AfterCarve` | Middlewares/Third_Party/FreeRTOS/Source/portable/MemMang/heap_4.c:181-221 | and after an allocation, split or not |
| `HeapRows.FreesOfJoined` | Middlewares/Third_Party/FreeRTOS/Source/portable/MemMang/heap_4.c:389-434 | comparing addresses on the list of free blocks finds the same neighbours as looking at the whole heap would |
| `HeapRows.JoinedTiles` | Middlewares/Third_Party/FreeRTOS/Source/portable/MemMang/heap_4.c:377-435 | a release leaves no gap, no overlap and no two adjacent free blocks |
| `HeapRows.CarvedTiles` | Middlewares/Third_Party/FreeRTOS/Source/portable/MemMang/heap_4.c:185-207 | neither does an allocation |
| `HeapRows.FreesOfCarved` | Middlewares/Third_Party/FreeRTOS/Source/portable/MemMang/heap_4.c:193-202 | on the free list the remainder takes the place of the block |
| `HeapRows.ReleasedTotal` | Middlewares/Third_Party/FreeRTOS/Source/portable/MemMang/heap_4.c:299-301 | a release adds the size of the block to the free total |
| `HeapRows.CarvedTotal` | Middlewares/Third_Party/FreeRTOS/Source/portable/MemMang/heap_4.c:209 | an allocation takes the size of the block handed out from it, the unsplit excess included |
| `HeapRuns.StepKeeps` | Middlewares/Third_Party/FreeRTOS/Source/portable/MemMang/heap_4.c:113-308 | every call keeps the heap in order, leaves every block in use that it does not name, and puts in use only what it returns |
| `HeapRuns.Granted` | Middlewares/Third_Party/FreeRTOS/Source/portable/MemMang/heap_4.c:177-181 | what is returned is aligned, holds the wanted bytes inside the heap, is new, and meets no block in use |
| `HeapRuns.ServesIff` | Middlewares/Third_Party/FreeRTOS/Source/portable/MemMang/heap_4.c:134-175 | in bytes: a request is served exactly if it is not for nothing and a free block can hold it with its header, rounded up |
| `HeapRuns.GrantedBlock` | Middlewares/Third_Party/FreeRTOS/Source/portable/MemMang/heap_4.c:163-207 | in bytes: the lowest free block that can hold the request is used, and split exactly if more than 16 bytes would be left over |
| `HeapRuns.HandedOutSize` | Middlewares/Third_Party/FreeRTOS/Source/portable/MemMang/heap_4.c:185-207 | so the block handed out is 8 to 31 bytes larger than the request |
| `HeapRuns.NoSmallFreeIff` | Middlewares/Third_Party/FreeRTOS/Source/portable/MemMang/heap_4.c:53 | in no run from one free block does a free block fall below 24 bytes, exactly if every request is for more than 8; blocks of 16 arise by releasing |
| `HeapRuns.AllocateThenRelease` | Middlewares/Third_Party/FreeRTOS/Source/portable/MemMang/heap_4.c:113-308 | releasing what was just allocated restores the heap exactly |
| `HeapRuns.FreeBytesServeIff` | Middlewares/Third_Party/FreeRTOS/Source/portable/MemMang/heap_4.c:100-103 | the free total serves every request it covers exactly while there is at most one free block |
| `HeapRuns.FragmentedRefusal` | Middlewares/Third_Party/FreeRTOS/Source/portable/MemMang/heap_4.c:100-103 | a run from one free block that ends in the refusal of a request smaller than the free total |
| `HeapRuns.LiveUntilReleased` | Middlewares/Third_Party/FreeRTOS/Source/portable/MemMang/heap_4.c:113-308 | in every run a block keeps its place and size until its own payload is released |
| `HeapRuns.LiveApart` | Middlewares/Third_Party/FreeRTOS/Source/portable/MemMang/heap_4.c:113-308 | in every run two payloads live together are disjoint, with a header between them |
| `HeapRuns.InUseWasGranted` | Middlewares/Third_Party/FreeRTOS/Source/portable/MemMang/heap_4.c:113-308 | in every run a payload in use was handed out by a call and has not been given back since |
| `HeapRuns.UsedDecideRow` | Middlewares/Third_Party/FreeRTOS/Source/portable/MemMang/heap_4.c:377-435 | the blocks in use decide what is free, and in how many pieces |
| `HeapRuns.HistoryForgotten` | Middlewares/Third_Party/FreeRTOS/Source/portable/MemMang/heap_4.c:28-31 | two runs that end with the same blocks in use end with the same heap, however they got there |
| `HeapRuns.AllReleased` | Middlewares/Third_Party/FreeRTOS/Source/portable/MemMang/heap_4.c:28-31 | however calls were ordered and sized, once every payload handed out has been given back the heap is one free block again |

## Left out

- CM4/Core/Src/main.c, stm32mp1xx_hal_msp.c, stm32mp1xx_it.c, app_freertos.c and syscalls.c: configuration and forwarding to the HAL and the RTOS. `Error_Handler` appears only as the place from which a core does not return.
- CM4/OPENAMP/openamp.c and rsc_table.c, the virtqueue itself and the A7 kernel: `rproc_virtio_notified` is one atomic drain of an abstract queue, and the A7 is assumed to set the IPCC flag only when it finds it clear. The HAL's interrupt masking appears as the fact that a callback is not entered again before it has acknowledged.
- CA7/stm32-ecu-manager: gRPC and ioctl plumbing.
- SystemCoreClockUpdate: straight-line floating point.
- Inline assembly and compiler builtins, memory barriers, and real-time bounds.
- The TrustZone `_NS` copies of the NVIC functions, and hardware that pends or activates interrupts by itself between calls.
- MPU regions beyond those a device implements: the model has the 256 that RNR can name.
- MpuV8.LoadEx: the register block is passed in and out by value instead of being a class, and the counters are unbounded, with every subtraction proved not to go below zero.
- Poll, Notify and Lock are observed over finite schedules: what happens between their statements, and how often a loop turns, are parameters. Whether a waiting core is ever served depends on the other core and is not claimed.
- Periph_Lock on a peripheral the macro does not list reads past the semaphore registers; the model requires a listed one, as the HAL's parameter check does.
- The values of log messages, and `log_buff` being interrupted by itself.
- The heap_4 allocator: `xBlockAllocatedBit` is a field of its own beside the size, sound because the heap is smaller than 2^31; `prvHeapInit` runs in the constructor instead of on the first call; the scheduler lock, trace macros and failure hook are omitted, so a call is atomic. `xStart` is assumed to lie outside the heap array.
- Heap4.Heap.Free: requires NULL or a payload in use, as its `configASSERT`s demand, and that applications do not write to block headers.
