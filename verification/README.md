# NPLL core, modelled in Dafny

NPLL is a bare-metal PowerPC boot loader for the GameCube, Wii and Wii U.
This project models the loader's core and proves properties about that model.
The core is the code that keeps tables in RAM and the code that packs and
unpacks words and strings:

- the kernel substrate: the two-pool allocator, the driver stager and callback table, the interrupt handler table, the exception vector writer and stack walker, and the input event queue;
- address translation and validity per console, data-cache line rounding, and the timebase arithmetic;
- the MINI ring-buffer IPC with the Starlet;
- drivers that are mostly bit packing or small state machines: EXI, USB Gecko, the Hollywood SD host controller and the SD/MMC card layer, the VI video interface, and the GamePad text channel;
- the framebuffer text console, the output-device registry and its fan-out, and the in-memory log;
- the ELF checker and loader, the local `strtol` family, and the `ctype` classifiers.

Conventions used throughout:

- `u8`, `u16`, `u32` and `u64` are subsets of `int`, defined in module `Types`. Wrap-around is written out: `Add32`, `Sub32` and `Mul32` work modulo 2^32. Bitwise AND, OR, NOT and shifts are functions on numbers, with lemmas relating them to arithmetic.
- `Console` is the platform the loader runs on (`GameCube`, `Wii`, `WiiU`).
- A hardware register that is read becomes an input. For a polling loop this is the sequence of values it would see (`nat -> u32`). A register that is written becomes a field of a class, or a byte array for the SD host controller's register file.
- `panic` and a failing `assert` become a terminal outcome: a `Panicked`/`panicked` result. The state after it is left unspecified.
- Code that changes state in place is a class with `modifies` clauses. Each method is specified by a function on values, and the properties are proved about that function.

## Model

| member | source | states |
|---|---|---|
| Types.ConsoleTypeValue | include/npll/console.h:10-14 | the console enum runs 1 (GameCube), 2 (Wii), 3 (Wii U); every value is a valid index of the per-console tables |
| Types.ConsoleTypeValueDistinct | include/npll/console.h:10-14 | GameCube is 1, Wii 2 and Wii U 3, and two consoles share a value exactly when they are the same console |
| Utils.PhysToCached | include/npll/utils.h:27-31 | the result lies at or above 0x80000000, and for a physical address (below 1 GiB) it is that address plus the cached base |
| Utils.PhysToUncached | include/npll/utils.h:33-37 | the result lies at or above 0xc0000000, and for a physical address it is that address plus the uncached base |
| Utils.OrBelowIsAdd | include/npll/utils.h:24-37 | OR-ing either base onto an address below 1 GiB is the same as adding it, since the bases use only bits 30 and 31 |
| Utils.VirtToPhysKeepsLowBits | include/npll/utils.h:39-43 | clearing the uncached base's bits leaves the address modulo 2^30 |
| Utils.VirtToPhysMeaning | include/npll/utils.h:39-43 | the result is physical; a physical address is unchanged; an uncached address loses the uncached base and a cached one the cached base, so one mask serves both views |
| Utils.VirtToPhysIdempotent | include/npll/utils.h:39-43 | translating twice is the same as translating once |
| Utils.TranslationRoundTrip | include/npll/utils.h:27-43 | virtToPhys undoes physToCached and physToUncached on every physical address |
| Utils.AddrIsValidCached | include/npll/utils.h:65-82 | true exactly when the address lies in the console's cached MEM1 window (24 MiB on GameCube and Wii, 32 MiB on Wii U) or in its cached MEM2 window (64 MiB on Wii, 256 MiB on Wii U, none on GameCube) |
| Utils.AddrIsValidUncached | include/npll/utils.h:84-101 | the same windows seen through the uncached base |
| Utils.AddrIsValidPhys | include/npll/utils.h:103-121 | the same windows at their physical addresses; MEM1's lower bound is 0 and is not compared |
| Utils.ValidityAgreesAcrossViews | include/npll/utils.h:65-121 | a physical address is valid exactly when its cached image is valid, and exactly when its uncached image is valid |
| Utils.ValidCachedIsTranslatedPhys | include/npll/utils.h:27-82 | every valid cached address is the cached image of a valid physical address |
| Cache.RoundDown | include/npll/cache.h:30-31 | `x & ~0x1f` is x rounded down to a multiple of 32 |
| Cache.LineStartMeaning | include/npll/cache.h:30 | the first flushed line is 32-byte aligned, at most p, and less than 32 bytes below it |
| Cache.LineEndMeaning | include/npll/cache.h:31 | the end is aligned and, when p + len + 31 does not wrap, it is p + len rounded up |
| Cache.LinesShape | include/npll/cache.h:33-34 | the loop visits (b - a) / 32 lines, the k-th at a + 32k, each aligned and inside [a, b) |
| Cache.LinesCover | include/npll/cache.h:33-34 | the line holding any address of [a, b) is among those visited |
| Cache.FlushCoversRange | include/npll/cache.h:27-37 | without wrap-around, every byte of [p, p + len) lies in a line the flush writes back |
| Cache.EmptyAlignedFlush | include/npll/cache.h:30-34 | an aligned pointer with length 0 flushes no line |
| Cache.DcacheFlush | include/npll/cache.h:27-37 | the method issues one write-back per line from the rounded-down start to the rounded-up end, in ascending order |
| Timer.TicksPerUsec | src/timer.c:13-18 | timebase ticks per microsecond: 40 on GameCube, 60 on Wii, 62 on Wii U (the bus clocks 162, 243 and 248 MHz divided by 4, truncated) |
| Timer.UsecToTicks | src/timer.c:32 | the 64-bit product of rate and microseconds is the exact product, since it cannot reach 2^64 |
| Timer.HasElapsedMonotone | src/timer.c:29-34 | once the test holds for one timebase sample it holds for every later one |
| Timer.HasElapsedZero | src/timer.c:29-34 | with zero microseconds the test is just `tb >= startTB` |
| Timer.HasElapsedMeaning | src/timer.c:29-34 | when start + ticks does not wrap, the test holds exactly when at least that many ticks have passed |
| Timer.SpinOnTB | src/timer.c:22-27 | the spin stops at the first sample whose 64-bit wrapping distance from the start reaches the tick count; every earlier sample falls short; it keeps spinning when no sample reaches it |
| Timer.Udelay | src/timer.c:37-39 | the same stop condition with the tick count rate × microseconds |
| Allocator.PoolAllocOutcome | src/allocator.c:90-124 | a bad pool magic panics, a pool with zero top, bottom and cur_bottom gives NULL and changes nothing; otherwise the block is cur_bottom - size, a header {magic, size} is written 8 bytes below it, only this pool changes, and its cur_bottom becomes old - size + 8 (mod 2^32) |
| Allocator.NoExhaustionCheck | src/allocator.c:101-123 | a live pool returns a block even when the request exceeds its free bytes |
| Allocator.CurBottomAboveHeader | src/allocator.c:110-119 | after an allocation the pool's cur_bottom sits 16 bytes above the header just written |
| Allocator.AsWrittenBottom | src/allocator.c:118 | `bottom -= size - 8` equals old - size + 8 and header + 16, modulo 2^32 |
| Allocator.CorrectedRestores | src/allocator.c:189 | with cur_bottom at the header, header + 8 + size is the old cur_bottom again, modulo 2^32 |
| Allocator.FreshBlockIsNeverFreed | src/allocator.c:110-195 | as written, freeing the block just allocated matches no pool and changes nothing |
| Allocator.FixedAllocThenFreeRestores | src/allocator.c:168-195 | with the corrected step, freeing the most recent block succeeds and restores every pool |
| Allocator.ConsecutiveAllocationsOverlap | src/allocator.c:105-119 | as written, a second block from the same pool ends 8 bytes above the start of the first |
| Allocator.ConsecutiveAllocationsDisjoint | src/allocator.c:105-119 | with the corrected step, the second block ends exactly at the first block's header |
| Allocator.FreeChangesOnlyMatchingPool | src/allocator.c:173-194 | free keeps the headers, changes nothing when it panics, and changes only the cur_bottom of the first live pool (in index order) whose cur_bottom is ptr - 8 |
| Allocator.FreeOfUnknownPointer | src/allocator.c:173-194 | a pointer that matches no live pool's cur_bottom is ignored |
| Allocator.AnyPoolChoice | src/allocator.c:127-165 | POOL_ANY takes MEM1 on GameCube; elsewhere it panics on a bad magic and otherwise takes MEM1 only when it has strictly more free bytes; an unknown selector panics |
| Allocator.MallocSizeBounds | src/allocator.c:52 | malloc's rounding gives at least size and at most size + 23, with the bits of 23 clear (also line 200) |
| Allocator.MallocSizeOfOne | src/allocator.c:52 | one byte rounds to 8, so the rounding does not give 24- or 32-byte multiples (also line 200) |
| Allocator.MallocSizeOfTwentyFour | src/allocator.c:52 | 24 bytes round to 40 (also line 200) |
| Allocator.InitLayout | src/allocator.c:204-232 | M_Init sets MEM1 from the relocation address down to 0x80004000 on GameCube and Wii, MEM2 from 0x94000000 down to 0x90000000 on Wii only, and leaves a Wii U table as it was |
| Allocator.WiiUAllocationPanics | src/allocator.c:141-144 | on a Wii U every allocation from the zero table panics on the magic check (also lines 98-99, 230-231) |
| Allocator.GameCubeMem2Panics | src/allocator.c:131-133 | on a GameCube an explicit MEM2 request panics rather than returning NULL, since the magic check comes before the absent-pool test (also lines 98-99) |
| Allocator.Allocator.constructor | src/allocator.c:86 | the static table starts zeroed |
| Allocator.Allocator.PoolAllocAt | src/allocator.c:90-124 | the table and headers after the call are those of the corrected allocation |
| Allocator.Allocator.MPoolAllocate | src/allocator.c:127-165 | the result and new state are those of M_PoolAlloc over the corrected allocation |
| Allocator.Allocator.FreeBlock | src/allocator.c:168-195 | the result and new state are those of free |
| Allocator.Allocator.MallocBlock | src/allocator.c:198-202 | the result and new state are those of malloc |
| Allocator.Allocator.MInit | src/allocator.c:204-238 | the new state is M_Init's layout for the console |
| Drivers.PassUpTo | src/drivers.c:35-68 | one pass over the first n descriptors keeps the table's length |
| Drivers.PassEffect | src/drivers.c:35-68 | in one pass a descriptor is left alone until the pass reaches it; there its `init` runs exactly when it is not settled, is allowed by the platform mask and its type is at most the pass's type, seeing the table as the earlier descriptors left it; later descriptors do not touch it |
| Drivers.PassCalls | src/drivers.c:35-68 | one pass calls a descriptor's `init` exactly once if those three conditions hold, and never otherwise |
| Drivers.PassInTableOrder | src/drivers.c:35-68 | within a pass, `init`s run in strictly ascending table order |
| Drivers.PassKeepsIdle | src/drivers.c:39-51 | a settled descriptor (READY, NO_HARDWARE, FAULTED, INITIALIZING) or one not allowed on this platform is neither called nor changed by a pass |
| Drivers.StagesKeepIdle | src/drivers.c:27-69 | such a descriptor is never called and never changes during the passes |
| Drivers.StageStep | src/drivers.c:27-69 | pass n - 1 changes a descriptor only through one `init` call, made only when the three conditions hold for it at that pass |
| Drivers.RetryingDriverCalls | src/drivers.c:27-69 | a driver whose `init` never settles it is called once in every pass whose type is at least its own |
| Drivers.RetryingDriverCalledPerPass | src/drivers.c:17-70 | D_Init calls such a driver exactly 6 - type times |
| Drivers.SettlingDriverCalls | src/drivers.c:27-69 | a driver whose `init` settles it is untouched before the pass of its own type, and after that pass it is settled and was called once |
| Drivers.SettlingDriverCalledOnce | src/drivers.c:17-70 | D_Init calls such a driver exactly once and leaves it settled |
| Drivers.SettledPersists | src/drivers.c:39-45 | a descriptor settled at the start of a pass is the same at the end of every later pass |
| Drivers.DependentStaysPending | src/drivers.c:27-69 | a driver whose `init` only ever reports NEED_DEP or READY is never left FAULTED, NO_HARDWARE or INITIALIZING, and keeps its type and mask |
| Drivers.PassReadiesDependent | src/drivers.c:35-68 | within one pass, a dependent that is READY or due to run ends the pass READY when its dependency is READY by the time the pass reaches it |
| Drivers.DependencyResolves | src/drivers.c:29-34 | a driver that reports NEED_DEP until another descriptor is READY ends READY when that descriptor is READY by the end of any pass but the last |
| Drivers.DependencyResolvesInPass | src/drivers.c:29-34 | when the dependency precedes the driver in the table, its turning READY in any pass the driver's type admits, the last included, makes the driver READY in that same pass |
| Drivers.DInit | src/drivers.c:17-70 | D_Init keeps the table's length |
| Drivers.FindFrom | src/drivers.c:74-79 | the scan finds the lowest slot from i holding x, or reports that none does (also lines 86-91) |
| Drivers.AddCallback | src/drivers.c:72-81 | the lowest empty slot receives the callback and nothing else changes; when no slot is empty the call panics |
| Drivers.RemoveCallback | src/drivers.c:84-93 | the lowest slot holding the callback becomes empty and nothing else changes; a callback not in the table changes nothing |
| Drivers.RunCallsEachSlotOnce | src/drivers.c:95-101 | a run calls each non-empty slot once and nothing else |
| Drivers.AddThenRemove | src/drivers.c:72-93 | adding a fresh callback while a slot is free and then removing it restores the table |
| Drivers.RunAfterAdd | src/drivers.c:72-101 | after a successful add, a run calls the new callback once more and every other one as often as before |
| Drivers.RunAfterRemove | src/drivers.c:84-101 | after removing a registered callback, a run calls it once less and every other one as often as before |
| Drivers.Registry.constructor | src/drivers.c:14-15 | the driver table holds the linked-in descriptors, the mask is the platform's bit, and every callback slot is empty |
| Drivers.Registry.Init | src/drivers.c:17-70 | the table after the call and the `init` calls made, in order, are those of D_Init |
| Drivers.Registry.AddCb | src/drivers.c:72-81 | panics exactly when every slot is taken, and otherwise stores the callback in the lowest empty slot |
| Drivers.Registry.RemoveCb | src/drivers.c:84-93 | the slots after the call are those of D_RemoveCallback |
| Drivers.Registry.RunCbs | src/drivers.c:95-101 | the callbacks called, in order, are the non-empty slots in ascending slot order |
| Irq.EEBit | include/npll/cpu.h:53 | `msr & MSR_EE` is MSR_EE when external interrupts are enabled and 0 otherwise |
| Irq.DisableMeaning | src/irq.c:25-26 | disabling takes away exactly the EE bit and leaves it clear |
| Irq.DisableSaveMeaning | src/irq.c:18-31 | IRQ_DisableSave returns whether EE was set and leaves it clear, changing the MSR only when EE was set |
| Irq.RestoreUndoesDisableSave | src/irq.c:18-31 | restoring what IRQ_DisableSave returned gives back the MSR it was called on |
| Irq.NestedSectionsRestore | src/irq.c:18-31 | a nested DisableSave returns false and changes nothing, and restoring inner then outer gives back the original MSR |
| Irq.SaveNested | src/irq.c:18-31 | n nested IRQ_DisableSave calls give one flag each |
| Irq.RestoreCleared | src/irq.c:18-31 | restoring flags that are all clear leaves the MSR as it is |
| Irq.NestedSectionsRestoreAll | src/irq.c:18-31 | at any nesting depth only the outermost save can report EE set, EE is clear inside, every restore but the outermost leaves the MSR as the saves left it, and the outermost gives back the original MSR |
| Irq.Register | src/irq.c:104-107 | registering fails (the assertion) exactly when the slot is occupied; otherwise only that slot changes, to the new handler |
| Irq.DoHandle | src/irq.c:74-77 | an empty slot does nothing; otherwise its handler is called once with its own device id |
| Irq.SourceEvents | src/irq.c:89-96 | one source is acknowledged exactly when its bit is pending, and its handler runs exactly when it is also registered |
| Irq.HandleAcksPending | src/irq.c:79-102 | on Wii and Wii U the acknowledged bits are the pending ones among GPIOB then GPIO, handler or not; a GameCube acknowledges nothing |
| Irq.HandleDispatchesRegistered | src/irq.c:79-102 | the handlers called are those of the pending sources, GPIOB first, each with its own device id; none on a GameCube |
| Irq.GpioMaskValue | src/irq.c:49 | the Hollywood mask left enabled is GPIOB OR GPIO, which is their sum as the two bits are disjoint |
| Irq.AcknowledgeMeaning | src/irq.c:91-95 | a write to a write-one-to-clear status register clears exactly the pending bits written and keeps the others |
| Irq.AcknowledgeAll | src/irq.c:38 | writing a status register's own value back leaves nothing pending (also lines 46, 56-57, 61-62, 66-67) |
| Irq.InterruptController.constructor | src/irq.c:16 | the controller starts with the given console and MSR |
| Irq.InterruptController.DisableSaveEE | src/irq.c:18-31 | the result and new MSR are those of DisableSave, and nothing else changes |
| Irq.InterruptController.RestoreEE | src/irq.c:18-31 | the new MSR is that of Restore, and nothing else changes |
| Irq.InterruptController.Init | src/irq.c:33-72 | every handler slot is cleared; every Flipper interrupt is acknowledged; the Flipper mask is 0 on GameCube and the Hollywood cascade bit elsewhere; on Wii and Wii U every Hollywood interrupt is acknowledged and the Hollywood mask becomes GPIOB + GPIO, both untouched on GameCube; on Wii U the six Latte enables and statuses are zero, untouched elsewhere; the MSR is untouched |
| Irq.InterruptController.MaskHollywood | src/irq.c:44-49 | the Hollywood flags are acknowledged to zero and the mask ends as GPIOB + GPIO; nothing else changes |
| Irq.InterruptController.MaskLatte | src/irq.c:52-68 | the six Latte enable registers are zeroed and the six status registers acknowledged to zero; nothing else changes |
| Irq.InterruptController.RegisterHandler | src/irq.c:104-107 | fails exactly when the slot is taken, leaving the table; otherwise the table is that of Register |
| Irq.InterruptController.HandleIrq | src/irq.c:79-102 | the handler calls and acknowledgements made are those of Handle for the sampled flag register |
| Input.Enqueue | src/input.c:41-49 | a stored push keeps the 16-slot array |
| Input.ConsumeAsWritten | src/input.c:21-39 | the as-written consume keeps the 16-slot array |
| Input.Consume | src/input.c:21-39 | the corrected consume keeps the array and keeps every slot from queuePos upwards empty |
| Input.InitEmpties | src/input.c:17-19 | IN_Init zeroes all 16 slots; with queuePos at 0 the queue is then empty |
| Input.EnqueueAppends | src/input.c:41-49 | a push panics (the assertion) exactly when 16 events are queued; otherwise the new event is appended to the contents and the queue stays well formed |
| Input.ConsumePops | src/input.c:21-39 | with the top slot cleared, consuming an empty queue returns 0 and changes nothing; otherwise it returns the oldest event and removes exactly it |
| Input.OperationsKeepBounded | src/input.c:21-49 | both operations keep queuePos in range with every slot above it empty |
| Input.Drain | src/input.c:21-39 | n consumes return n events and keep the queue bounded |
| Input.PushAll | src/input.c:41-49 | pushing a sequence keeps the array |
| Input.PushAllAppends | src/input.c:41-49 | pushing events that fit appends them all, in order |
| Input.DrainReturnsContents | src/input.c:21-39 | consuming as many events as are queued returns the contents in order and leaves the queue empty |
| Input.QueueIsFifo | src/input.c:21-49 | from an empty queue, up to 16 non-zero events come out in the order they went in |
| Input.AsWrittenAgreesBelowFull | src/input.c:34 | while slot 15 is empty, the consume as written equals the corrected one |
| Input.DrainAsWritten | src/input.c:21-39 | n consumes as written return n events and keep the array |
| Input.DrainAsWrittenShape | src/input.c:26-35 | as written, after n consumes of a queue of non-zero events slot i holds what slot min(i + n, 15) held and queuePos has fallen by n |
| Input.FullQueueRepeatsLastEvent | src/input.c:26-47 | as written, a full queue delivers its 16th event again on the 17th consume, queuePos reaches -1, and every later push writes outside the array |
| Input.FullQueueDrainsCorrected | src/input.c:21-39 | with the top slot cleared, a full queue returns its 16 events and then 0, ending with queuePos 0 |
| Input.DrainSplit | src/input.c:21-39 | n + 1 consumes are n consumes followed by one more |
| Input.InputQueue.constructor | src/input.c:14-15 | the static queue starts zeroed with queuePos 0 |
| Input.InputQueue.Init | src/input.c:17-19 | the slots are cleared and queuePos keeps its value |
| Input.InputQueue.ConsumeEvent | src/input.c:21-39 | the event and new queue are those of the corrected consume, and the interrupt state is given back unchanged |
| Input.InputQueue.NewEvent | src/input.c:41-49 | panics exactly when the queue is full, changing nothing; otherwise the queue is that of the push; the interrupt state is given back unchanged |
| Exception.StubEncodesVector | src/exception.c:89-92 | word 1 of a stub is `li 3,vector`: its high half is the opcode 0x3860 and its low half the vector number; the other three words do not depend on the vector |
| Exception.StubWord | src/exception.c:86-93 | once the loop has reached vector k, word j of its stub is at 0x80000000 + vector + 4j |
| Exception.StubsOutside | src/exception.c:86-93 | the loop touches no address outside the 16-byte slots of the vectors it has written |
| Exception.StubRegion | src/exception.c:86 | the 496 vectors 0x100, 0x110, … sit one every 16 bytes in [0x100, 0x2000) and end exactly at 0x2000 |
| Exception.CopyWordsLayout | src/exception.c:96-97 | the copied handler body lands word by word from its destination, and no other address changes |
| Exception.InitImageLayout | src/exception.c:80-100 | after E_Init every vector holds its stub, the handler body sits from 0x80002200, and memory below the first vector is as it was |
| Exception.StubSyncIsExact | src/exception.c:94 | the first sync covers exactly [0x80000100, 0x80002000), 248 lines |
| Exception.TraceShape | src/exception.c:33-50 | the trace has at most 32 frames; its stack pointers are non-zero and strictly increasing, each the back-chain word saved by the one before; each link register is the word after its frame's back-chain; a non-null start always gives its own frame first |
| Exception.SyncBeforeExec | src/exception.c:21-31 | the lines flushed and invalidated are those from p rounded down to p + len rounded up, in ascending order |
| Exception.DumpStackTrace | src/exception.c:33-50 | the loop prints exactly the frames of Trace |
| Exception.Handler | src/exception.c:53-78 | the report always ends in the panic message; row i of the register dump shows r(i), r(i+8), r(i+16), r(i+24) from the save area; the two special-register rows show words i, i+2, i+4, i+6 from 0x80002080; the trace starts from the saved r1 |
| Exception.LowMemory.constructor | src/exception.c:87 | low memory starts with the given contents |
| Exception.LowMemory.WriteVectorStubs | src/exception.c:86-93 | the vector loop leaves the image of all 496 stubs over the old memory |
| Exception.LowMemory.CopyHandlerBody | src/exception.c:96-97 | the memcpy leaves the body copied to 0x80002200 over the old memory |
| Exception.LowMemory.Init | src/exception.c:80-100 | E_Init leaves InitImage and synchronises the stub area then the body's lines, in order |
| MiniIpc.Halves | src/wii/mini_ipc.c:93-94 | the word built from two halves reads back those halves |
| MiniIpc.HalvesMeaning | src/wii/mini_ipc.c:93-94 | every word is its high half times 2^16 plus its low half |
| MiniIpc.PokeInTailHalves | src/wii/mini_ipc.c:126-134 | poke_intail rewrites the low half of PPCMSG to the tail and keeps the high half |
| MiniIpc.PokeOutHeadHalves | src/wii/mini_ipc.c:136-144 | poke_outhead rewrites the high half to the head and keeps the low half |
| MiniIpc.MaskForms | src/wii/mini_ipc.c:114-144 | the masks and shifts of the four peek/poke helpers compute those halves |
| MiniIpc.AdvanceIsModulo | src/wii/mini_ipc.c:147 | for a power-of-two ring of at most 65536 slots, `(idx + 1) & (size - 1)` is `(idx + 1) mod size`, stays below the size, and the in ring is full exactly when ARM's head is that successor (also lines 177, 231) |
| MiniIpc.FullForMeaning | src/wii/mini_ipc.c:154-169 | the first n samples all show the in ring full |
| MiniIpc.Posted | src/wii/mini_ipc.c:172-181 | a post keeps the ring well formed |
| MiniIpc.PostedWritesSlot | src/wii/mini_ipc.c:172-180 | a post stores code, tag and the arguments in the slot at the old tail, keeps every other slot, publishes the new tail in the low half of PPCMSG and changes nothing on the out side |
| MiniIpc.EmptyForMeaning | src/wii/mini_ipc.c:208-225 | the first n samples all show the out ring empty |
| MiniIpc.ReceiveOutcome | src/wii/mini_ipc.c:204-236 | a receive gives -1 exactly when it times out, then with a zeroed buffer and nothing changed; otherwise it returns the reply at the old head, advances the head and publishes it in the high half of PPCMSG; the in side is never touched |
| MiniIpc.SmallLimitWaitsFully | src/wii/mini_ipc.c:215-224 | a max_attempts of 1 or less leaves only the 10000-poll bound; above 1 the wait is cut at max_attempts |
| MiniIpc.TaggedFromFacts | src/wii/mini_ipc.c:245-255 | the mismatch loop returns 0 only with a matching reply, returns 0 or -1, makes at most attempts - 1 further receives and keeps the in side |
| MiniIpc.ReceiveTaggedFacts | src/wii/mini_ipc.c:238-258 | MINI_IPCRecvTagged returns 0 only with a reply of the requested code and tag, makes between 1 and max(1, max_attempts) receives, and keeps the in side |
| MiniIpc.ExchangeTagging | src/wii/mini_ipc.c:261-290 | an exchange returns 0 or -1; the tag advances exactly when it succeeds, and the successful reply carries the request's code and the old tag |
| MiniIpc.ExchangeStuckPost | src/wii/mini_ipc.c:270-273 | a post that times out ends the exchange with -1, the buffer untouched and nothing changed |
| MiniIpc.ExchangePosting | src/wii/mini_ipc.c:270-271 | a post that finds room leaves the request, under the current tag, in the slot at the old tail |
| MiniIpc.ExchangeKeepsPostedRing | src/wii/mini_ipc.c:275-283 | the receive half of an exchange does not touch the in ring the post wrote |
| MiniIpc.TagIncrementMoves | src/wii/mini_ipc.c:281 | incrementing the 32-bit tag always changes it |
| MiniIpc.FillSlot | src/wii/mini_ipc.c:172-175 | the stores leave code, tag and the argument words in the slot |
| MiniIpc.MiniState.constructor | src/wii/mini_ipc.c:47-48 | the state before MINI_Init: not initialised, PPCMSG and the in ring as the firmware left them |
| MiniIpc.MiniState.Init | src/wii/mini_ipc.c:50-96 | panics exactly when the infohdr pointer is outside MEM2, the magic is not "IPC" or the version is not 1, changing nothing; otherwise it takes the ring sizes from the header, maps the header cached and the rings uncached, takes the tail and head from the two halves of PPCMSG, and starts the tag at 1 |
| MiniIpc.MiniState.WaitForRoom | src/wii/mini_ipc.c:154-169 | the wait gives up exactly when every one of its samples shows the in ring full |
| MiniIpc.MiniState.Vpost | src/wii/mini_ipc.c:150-185 | returns -1 exactly when the wait times out, then with nothing changed; otherwise the rings are those of Posted and the X1 doorbell is rung |
| MiniIpc.MiniState.Recv | src/wii/mini_ipc.c:204-236 | the error, buffer and rings are those of Receive |
| MiniIpc.MiniState.RecvTagged | src/wii/mini_ipc.c:238-258 | the error, buffer and rings are those of ReceiveTagged |
| MiniIpc.MiniState.DropMismatches | src/wii/mini_ipc.c:245-255 | the loop's outcome is that of TaggedFrom |
| MiniIpc.MiniState.Exchange | src/wii/mini_ipc.c:261-290 | the error, buffer and rings are those of Exchanged |
| Exi.SpeedFromMhzMeaning | src/drivers/exi.c:78-94 | the clock field is a multiple of 16 whose index is at most 6 (64 MHz), and it exceeds index k exactly when the request exceeds 2^k MHz: the fastest rate not above the request, 1 MHz at the least |
| Exi.SpeedFromMhzMonotone | src/drivers/exi.c:78-94 | asking for a faster clock never selects a slower one |
| Exi.SelectCsrFields | src/drivers/exi.c:100-110 | the CSR word is the chip-select bit 7+cs plus the clock field, and the two fields can be read back separately |
| Exi.UnpackMeaning | src/drivers/exi.c:216-236 | a read of len bytes stores the top len bytes of the DATA word |
| Exi.UnpackPack | src/drivers/exi.c:216-236 | the read side inverts the write side: a value of the transfer's width (u8, u16, u32) comes back unchanged, and a 3-byte transfer returns its low 24 bits (also lines 168-186) |
| Exi.ControlWordFields | src/drivers/exi.c:195-208 | the CR word is the RW code, (len - 1) at bit 4 and TSTART, with RW 8 for read+write, 0 for read and 4 for write |
| Exi.RwFieldModes | src/drivers/exi.c:197-205 | the three accepted modes select one of the three RW codes |
| Exi.LengthBesideRw | src/drivers/exi.c:207 | OR-ing the length field into an RW code below 16 adds it |
| Exi.StartBitBeside | src/drivers/exi.c:208 | OR-ing TSTART into a word with bit 0 clear adds 1 |
| Exi.ExiBus.constructor | src/drivers/exi.c:273-280 | the driver starts NOT_READY with three channels of registers (also line 47) |
| Exi.ExiBus.Select | src/drivers/exi.c:100-110 | H_EXISelect writes the channel's CSR with the chip-select and clock word and no other register |
| Exi.ExiBus.Deselect | src/drivers/exi.c:116-119 | H_EXIDeselect clears the channel's CSR and no other register |
| Exi.ExiBus.XferImm | src/drivers/exi.c:126-239 | bad length or channel: -1 with no register written; otherwise DATA gets the packed value (0 without the write bit); a mode other than read, write or both gives -1 after that store; else CR gets the start word, the result is 0 and a read returns the unpacked reply |
| Exi.ExiBus.Init | src/drivers/exi.c:245-266 | the register base is 0xcc006800 on GameCube and 0xcd806800 otherwise, where AIPROT bit 0 is set; the callback is added and the state becomes READY, panicking exactly when the callback table is full |
| Exi.ExiBus.Cleanup | src/drivers/exi.c:268-271 | removes the callback and returns to NOT_READY |
| Output.TargetsMembers | src/libc/output.c:14-17 | a device is written to exactly when it is registered and not skipped, a graphical device being skipped only while `__putcharNoGraphics` is set (also lines 26-28) |
| Output.TargetsConcat | src/libc/output.c:14-17 | the devices reached from two halves of the table are those of each half, in table order |
| Output.TargetsAll | src/libc/output.c:14-17 | with graphics allowed every registered device is reached; never more devices than are registered |
| Output.CharCallsAt | src/libc/output.c:12-21 | the i-th call `putchar` makes is writeChar of the byte to the i-th reached device |
| Output.StrCallsAt | src/libc/output.c:24-35 | `puts` makes three calls per reached device: writeStr of the string, then writeChar '\r' and writeChar '\n' |
| Output.StrCallsLength | src/libc/output.c:24-35 | `puts` makes exactly three calls per reached device |
| Output.OutputTable.constructor | src/output.c:13-14 | no device registered and graphics allowed |
| Output.OutputTable.AddDevice | src/output.c:16-29 | panics exactly when 16 devices are already registered, changing nothing; otherwise the device is appended to the registered list in the next slot |
| Output.OutputTable.PutChar | src/libc/output.c:12-21 | returns c and makes the calls of CharCalls with the low byte of c over the reached devices |
| Output.OutputTable.Puts | src/libc/output.c:24-35 | returns 0 and makes the calls of StrCalls over the reached devices |
| Output.TargetsOne | src/libc/output.c:15-16 | a single device is reached unless it is graphical and graphics are off |
| Output.CharCallsSnoc | src/libc/output.c:14-18 | one more reached device adds one writeChar at the end |
| Output.StrCallsSnoc | src/libc/output.c:26-32 | one more reached device adds its three calls at the end |
| Memlog.PutAllAdvance | src/memlog.c:15-27 | the log pointer moves one byte per character until it meets 0x81700000 and never passes it |
| Memlog.PutAllStores | src/memlog.c:15-27 | after a write the bytes from the old pointer to the new one hold the leading characters of the text in order, and no other address changes |
| Memlog.MemLog.constructor | src/memlog.c:10 | the pointer starts at 0x81500000 |
| Memlog.MemLog.WriteChar | src/memlog.c:15-20 | at or past 0x81700000 nothing happens; otherwise the character is stored at the pointer, which advances by one |
| Memlog.MemLog.WriteStr | src/memlog.c:22-27 | stores the characters before the NUL, in order, as PutAll describes |
| Memlog.MemLog.Init | src/memlog.c:37-43 | adds the callback (panicking when the table is full, with nothing else changed), then logs the banner into memory, then registers the non-graphical device, panicking exactly when 16 devices are registered |
| Memlog.MemLog.Cleanup | src/memlog.c:45-47 | removes the callback |
| UsbGecko.ReceivedIsHighHalf | src/drivers/usbgecko.c:23-31 | the half-word a transaction returns is the top half of the EXI DATA word |
| UsbGecko.CharWordFields | src/drivers/usbgecko.c:45 | the send word is 0xb000 plus 16 times the byte: it fits 16 bits, carries the byte in bits 4-11 and the command nibble 0xb above it |
| UsbGecko.Transaction | src/drivers/usbgecko.c:23-31 | a transaction selects the port, does a 2-byte read/write transfer of tx and deselects: DATA holds the packed command, CR the read/write start word, CSR ends cleared, and the result is the reply's top half |
| UsbGecko.Probe | src/drivers/usbgecko.c:86-91 | the slot chosen is B when B answers 0x0470, else A when A does, else -1 (also lines 33-35) |
| UsbGecko.ModeRdwrBits | src/drivers/usbgecko.c:27 | the read/write mode has both direction bits and selects the RDWR code |
| UsbGecko.Gecko.constructor | src/drivers/usbgecko.c:120-127 | slot -1, NOT_READY, the platform's debug hooks in place (also line 21) |
| UsbGecko.Gecko.Init | src/drivers/usbgecko.c:69-113 | without a READY EXI driver: NEED_DEP and nothing else changes; otherwise the slot is the probe's choice; with no adapter NO_HARDWARE and the debug hooks as before; with one, the hooks stay cleared off Wii U, the callback is added (panic when the table is full), the state is READY and the device is registered (panic when 16 are) |
| UsbGecko.Gecko.AwaitTx | src/drivers/usbgecko.c:36-43 | given a status reply that ends the spin: it ends at the first status reply with the 0x0400 bit set, every earlier reply lacking it, leaving the status query in the slot's registers |
| UsbGecko.Gecko.WriteChar | src/drivers/usbgecko.c:40-46 | given a ready reply, after the wait the character's send word is the last transfer on the slot |
| UsbGecko.Gecko.WriteStr | src/drivers/usbgecko.c:48-53 | given a ready reply before each character, sends the send words of the characters before the NUL, in order |
| UsbGecko.Gecko.Cleanup | src/drivers/usbgecko.c:115-118 | removes the callback and returns to NOT_READY, keeping the slot and hooks |
| UsbGecko.WordsDecode | src/drivers/usbgecko.c:48-53 | the i-th word sent for a string carries its i-th character and the send nibble (also line 45) |
| UsbGecko.WordsLength | src/drivers/usbgecko.c:48-53 | one word per character |
| Drc.PackedBytes | src/drivers/drc_ipc_text.c:40-48 | OR-ing the shifted bytes into the message adds them: byte lanes 16, 8 and 0 do not overlap |
| Drc.CommandAbove | src/drivers/drc_ipc_text.c:37-48 | the print command sits above the 24 payload bits, so OR-ing the payload in adds it |
| Drc.SwitchMessageAdds | src/drivers/drc_ipc_text.c:37-55 | the message the switch builds for a chunk of 1 to 3 characters is the command plus the characters in lanes 16, 8 and 0 |
| Drc.MessageLanes | src/drivers/drc_ipc_text.c:37-55 | reading the three lanes of a chunk's message gives the chunk padded with NULs |
| Drc.LanesOf | src/drivers/drc_ipc_text.c:40 | a message fits 32 bits and its lanes read back the three bytes |
| Drc.CharMessageCarries | src/drivers/drc_ipc_text.c:16-18 | drcWriteChar's message is the one-character chunk message and carries exactly that character |
| Drc.MessagesCount | src/drivers/drc_ipc_text.c:32-63 | a string of n characters takes ceil(n/3) messages |
| Drc.MessagesDecode | src/drivers/drc_ipc_text.c:28-64 | decoding the messages sent for a string, dropping each message's padding, gives back the string |
| Drc.MessagesStep | src/drivers/drc_ipc_text.c:33-62 | one loop step sends the message of the next min(3, remaining) characters and leaves the rest |
| Drc.DrcConsole.constructor | src/drivers/drc_ipc_text.c:85-92 | NOT_READY, with PPCMSG and PPCCTRL clear |
| Drc.DrcConsole.Post | src/drivers/drc_ipc_text.c:21-25 | given a PPCCTRL sample with X1 clear: the message is left in PPCMSG and the spin ends at the first such sample with X1 clear, every earlier sample having it set (also lines 56-59) |
| Drc.DrcConsole.WriteChar | src/drivers/drc_ipc_text.c:16-26 | given an X1-clear sample, posts the one-character message |
| Drc.DrcConsole.WriteStr | src/drivers/drc_ipc_text.c:28-64 | given an X1-clear sample for each message, posts exactly Messages of the characters before the NUL, in order; the last one stays in PPCMSG, and an empty string touches nothing |
| Drc.DrcConsole.PostChunk | src/drivers/drc_ipc_text.c:33-59 | given an X1-clear sample, posts the message of the next chunk |
| Drc.DrcConsole.Init | src/drivers/drc_ipc_text.c:76-83 | given an X1-clear sample for each banner message: READY first, then the banner's messages, then the graphical device is registered, panicking exactly when 16 devices are |
| Video.PixelColumns | src/video.c:117-120 | pixel x of a glyph row is the foreground colour exactly when bit 8 - x of the row byte is set, so column 0 is always background and bit 0 of a row is never shown |
| Video.PaintRowAt | src/video.c:110-122 | painting one glyph row sets pixels off..off+n-1 from the row byte and changes nothing else |
| Video.PaintGlyphAt | src/video.c:106-125 | after the 16x8 loop, line y, column x of the cell shows pixel x of glyph row y |
| Video.PaintGlyphOutside | src/video.c:106-125 | the 16x8 loop leaves every pixel outside the cell as it was |
| Video.CellCoordinates | src/video.c:112-115 | a pixel lies in row y of a cell exactly when its line offset is y and its column offset is below 8 |
| Video.CellFits | src/video.c:112-115 | a cell on the grid that V_Register derives lies inside the framebuffer (also lines 172-173) |
| Video.ScrollFits | src/video.c:51-53 | one line of cells is no larger than the framebuffer |
| Video.MaybeScroll | src/video.c:47-58 | maybeScroll leaves the cursor on the last row or above, keeping the framebuffer's size |
| Video.Glyph | src/video.c:106-136 | drawing a character keeps the cursor on the grid and the pending colour selection |
| Video.GlyphAt | src/video.c:106-128 | a glyph that does not scroll shows the character's font rows in the cursor's cell, in the current colours, and leaves every other pixel |
| Video.Spaces | src/video.c:94-103 | a run of spaces keeps the cursor on the grid and the pending colour selection |
| Video.Render | src/video.c:60-136 | every character written keeps the cursor on the grid |
| Video.Dispatch | src/video.c:78-136 | each control character and glyph keeps the cursor on the grid |
| Video.ColourPrefix | src/video.c:64-76 | 0xff and 0xfe draw nothing and do not move the cursor; the next byte then sets the foreground or background to its palette entry and clears the selection |
| Video.SpacesKeepColours | src/video.c:94-103 | tab expansion changes neither colour nor the pending selection |
| Video.Backspace | src/video.c:80-84 | a backspace away from column 0 paints a space in the cell to the left, leaving the cursor where it was |
| Video.TabStop | src/video.c:94-103 | a tab that fits on the row moves the cursor right by the number of spaces it writes, on the same row |
| Video.RenderAll | src/video.c:138-143 | writing a string keeps the cursor on the grid |
| Video.FlushAfterBoot | src/video.c:152-154 | since lastFlush stays 0, a flush happens exactly when the timebase has reached 16 ms worth of ticks (also line 19) |
| Video.VideoConsole.constructor | src/video.c:14-34 | no active driver, cursor at 0,0, no pending selection, lastFlush 0 |
| Video.VideoConsole.PaintCell | src/video.c:108-125 | the nested loop leaves the framebuffer equal to PaintGlyph of the old one |
| Video.VideoConsole.ScrollUp | src/video.c:51-57 | the memmove and memset leave the framebuffer moved up by k pixels with the last k cleared |
| Video.VideoConsole.MaybeScrollConsole | src/video.c:47-58 | the framebuffer and cursor become those of MaybeScroll |
| Video.VideoConsole.DrawGlyph | src/video.c:106-135 | the framebuffer and cursor become those of Glyph |
| Video.VideoConsole.Tab | src/video.c:94-103 | the framebuffer and cursor become those of 8 - (posX + 8) % 8 spaces |
| Video.VideoConsole.WriteChar | src/video.c:60-136 | the framebuffer and cursor become those of Render, and the console stays writable |
| Video.VideoConsole.DispatchChar | src/video.c:78-136 | the framebuffer and cursor become those of Dispatch |
| Video.VideoConsole.WriteStr | src/video.c:138-143 | the framebuffer and cursor become those of Render applied to each character before the NUL |
| Video.VideoConsole.Register | src/video.c:163-185 | panics on a missing record or a second registration with nothing changed; otherwise the grid is width/8 by height/16, the framebuffer is taken, the colours are the light-grey and black palette entries and the device is registered, panicking when 16 are |
| Video.VideoConsole.Flush | src/video.c:152-161 | nothing before 16 ms since lastFlush; after that a panic exactly when no driver is active, and the flush hook is called exactly when the driver has one |
| Vi.ModeOf | src/drivers/vi.c:105-128 | the mode is the one the number names, and any number other than the four known ones falls back to NTSC interlaced |
| Vi.InitState | src/drivers/vi.c:52-90 | each mode's register table has 64 entries |
| Vi.Programmed | src/drivers/vi.c:131-137 | the copy loop writes every entry unchanged except entry 1, whose bit 0 is cleared; it is the loop invariant of Vi.ViRegs.Init |
| Vi.EnableBitLast | src/drivers/vi.c:131-141 | every mode's entry 1 has bit 0 set, so the copy leaves it clear and only the closing STATUS1 write sets it |
| Vi.FrameBufferRegs | src/drivers/vi.c:151-159 | FB1 is the physical address (top two bits cleared) over 32 plus 0x10000000; FB2 is FB1 for progressive NTSC and otherwise the same for the address one 640-pixel line further |
| Vi.FrameBufferFields | src/drivers/vi.c:153-158 | the source's mask, shift and OR compute those values |
| Vi.LowThirtyBits | src/drivers/vi.c:153 | clearing the top two bits keeps the address modulo 2^30 |
| Vi.FrameBufferField | src/drivers/vi.c:155 | shifting x right by 5 and OR-ing 0x10000000 is x/32 plus 2^28 (also line 158) |
| Vi.PutWord | src/drivers/vi.c:155 | a 32-bit register store to entries i and i+1 of the 16-bit block reads back as the value stored and changes no other entry (also line 158) |
| Vi.WithFrameBuffer | src/drivers/vi.c:151-159 | after VIDEO_SetFrameBuffer, FB1 (entries 14-15) and FB2 (entries 18-19) read back FrameBufferRegs and every other register keeps its value |
| Vi.FromMsbPrefix | src/drivers/vi.c:229-239 | the first n bits clocked out of a byte, shifted in by a receiver, are the byte's top n bits (also lines 284-294) |
| Vi.MsbFirstRoundTrip | src/drivers/vi.c:229-239 | a receiver shifting in the 8 bits clocked out gets the byte back (also lines 284-294) |
| Vi.ShiftedTop | src/drivers/vi.c:230 | after j left shifts the 0x80 bit it checks is bit 7 - j of the original byte (also lines 285, 238, 293) |
| Vi.ShiftStep | src/drivers/vi.c:238 | shifting the u8 once more is the byte times 2^(j+1) modulo 256 (also line 293) |
| Vi.FirstNack | src/drivers/vi.c:247-250 | the first missing ACK: every earlier ACK came, and it is missing unless it is the end (also lines 300-303) |
| Vi.ClockOut | src/drivers/vi.c:229-239 | the inner loop puts the byte's bits on SDA, most significant first (also lines 284-294) |
| Vi.SendI2C | src/drivers/vi.c:221-316 | returns 1 exactly when every ACK came; the wire carries the address then the data bytes, each MSB first, up to and including the byte whose ACK was missing |
| Vi.Reg8Frame | src/drivers/vi.c:318-325 | the frame is the register then the data byte |
| Vi.Reg16Frame | src/drivers/vi.c:327-335 | the register, then the half-word big-endian |
| Vi.Reg32Frame | src/drivers/vi.c:337-347 | the register, then the word big-endian |
| Vi.Reg32Shifts | src/drivers/vi.c:341-344 | the shifts and masks pick the four bytes of the word, high first |
| Vi.RegBufFrame | src/drivers/vi.c:349-356 | the register, then the buffer unchanged |
| Vi.Region | src/drivers/vi.c:360-371 | vdacFlagRegion is 2 exactly for the PAL modes and 0 otherwise |
| Vi.YuvSel | src/drivers/vi.c:358-373 | register 1 gets 32 * dtv + region for a DTV bit of 0 or 1 |
| Vi.YuvSelByte | src/drivers/vi.c:372 | the shift, mask and OR give that byte |
| Vi.EncoderFrames | src/drivers/vi.c:380-434 | VISetupEncoder sends 18 frames, the third being YUVSEL with the low bit of VISEL |
| Vi.MakeYuvPacked | src/drivers/vi.c:443-458 | OR-ing the four shifted fields of make_yuv gives their positional sum |
| Vi.PackedWord | src/drivers/vi.c:457 | four bytes OR-ed at bits 24, 16, 8 and 0 do not overlap |
| Vi.YuvFields | src/drivers/vi.c:443-458 | the YUV word carries Y of the first pixel, the mean Cb, Y of the second pixel and the mean Cr, high byte first |
| Vi.YuvOfSame | src/drivers/vi.c:460-462 | a pixel paired with itself keeps its own chroma and repeats its luma |
| Vi.BlackYuv | src/drivers/vi.c:515 | opaque black converts to Y 0 with neutral chroma 128: 0x00800080 (also line 531) |
| Vi.ViRegs.constructor | src/drivers/vi.c:92 | a zeroed 64-entry register block and NTSC interlaced |
| Vi.ViRegs.Init | src/drivers/vi.c:94-149 | the mode is the one ModeOf picks, and the register block, STATUS1 and both frame-buffer registers included, ends up holding exactly that mode's table (the copy holds STATUS1's enable bit clear until the final write) |
| Vi.ViRegs.SetFrameBuffer | src/drivers/vi.c:151-159 | the register block becomes WithFrameBuffer of the old block: FB1 and FB2 hold FrameBufferRegs of the current mode, nothing else changes |
| Vi.ViDriver.constructor | src/drivers/vi.c:542-549 | the driver holds the two buffers and is NOT_READY (also lines 42-43) |
| Vi.ViDriver.ClearYuv | src/drivers/vi.c:460-469 | every YUV word becomes the fill colour paired with itself |
| Vi.ViDriver.ClearRgb | src/drivers/vi.c:471-478 | every RGB word becomes the fill colour |
| Vi.ViDriver.Flush | src/drivers/vi.c:482-499 | YUV word i is make_yuv of RGB pixels 2i and 2i+1 |
| Vi.ViDriver.Program | src/drivers/vi.c:526-532 | ProgrammedFor: NTSC interlaced, the register block is the NTSC table with FB1 and FB2 pointing at the YUV buffer, both buffers black; the encoder frames on a Wii only |
| Vi.ViDriver.Announce | src/drivers/vi.c:524-535 | the console takes the RGB buffer at 640x480 and the video device is appended to the outputs, panicking on a second registration or a full device table; READY unless it panicked |
| Vi.ViDriver.Init | src/drivers/vi.c:514-536 | ProgrammedFor holds afterwards: the registers as Program leaves them, both buffers black (YUV 0x00800080 per pixel pair by BlackYuv), the encoder frames on a Wii; then the console takes the RGB buffer at 640x480 and the video device is appended to the outputs, panicking on a second registration or a full device table; READY unless it panicked |
| Sdhc.Le32Lanes | src/drivers/hollywood_sdhc.c:62-83 | the four bytes of a register word are its lanes 0 to 3, least significant first |
| Sdhc.WordOfLanes | src/drivers/hollywood_sdhc.c:62-83 | a word is rebuilt from its four lanes, and its two halves are lanes 0-1 and 2-3 |
| Sdhc.ByteLaneMask | src/drivers/hollywood_sdhc.c:78-82 | masking with 0xff shifted to a lane and shifting back gives that lane's byte |
| Sdhc.HalfLaneMask | src/drivers/hollywood_sdhc.c:67-70 | the upper-half mask and shift give the high half, the 0xffff mask the low half |
| Sdhc.ReadByteLane | src/drivers/hollywood_sdhc.c:73-83 | bus_space_read_1 returns lane reg % 4 of the aligned word |
| Sdhc.ReadHalfLane | src/drivers/hollywood_sdhc.c:66-71 | bus_space_read_2 returns the high half for an unaligned register and the low half otherwise |
| Sdhc.Mask32AsWrittenDropsValue | src/drivers/hollywood_sdhc.c:49-54 | writing 1 to the upper half of a zero word: the intended merge gives 0x10000, the merge as written gives 0 because it clears what it has just set (also lines 89-94) |
| Sdhc.MergeHalves | src/drivers/hollywood_sdhc.c:89-94 | the intended merge replaces exactly the addressed half of the word |
| Sdhc.MergeUpperHalf | src/drivers/hollywood_sdhc.c:91 | the upper-half merge keeps the low half and puts v above it |
| Sdhc.MergeLowerHalf | src/drivers/hollywood_sdhc.c:93 | the lower-half merge keeps the high half and puts v below it |
| Sdhc.LaneOfBytes | src/drivers/hollywood_sdhc.c:78-82 | lane l of the word of four bytes is byte l |
| Sdhc.ReplaceLane | src/drivers/hollywood_sdhc.c:101-105 | the word with one byte replaced is the old word minus the old lane plus the new one |
| Sdhc.MergeByte | src/drivers/hollywood_sdhc.c:96-106 | the intended byte merge replaces exactly the addressed lane |
| Sdhc.FirstFitIsSmallest | src/drivers/hollywood_sdhc.c:333-335 | the search finds the smallest power of two from 2^k to 256 that brings the base clock to at most freq, or none exists |
| Sdhc.DivisorMeaning | src/drivers/hollywood_sdhc.c:326-338 | the divisor is -1 exactly when no power of two up to 256 fits; otherwise it is 0 or a power of two up to 128 whose SD clock is at most freq, while the next smaller divisor's is above it |
| Sdhc.ClockDivisor | src/drivers/hollywood_sdhc.c:330-338 | the loop over 1, 2, 4, ..., 256 returns Divisor |
| Sdhc.BaseClockKHz | src/drivers/hollywood_sdhc.c:205-206 | the base clock is bits 8-13 of the capabilities, in MHz, times 1000 |
| Sdhc.DmaSupported | src/drivers/hollywood_sdhc.c:199 | DMA support is bit 22 of the capabilities |
| Sdhc.BaseClockAccepted | src/drivers/hollywood_sdhc.c:205-216 | the clock is accepted exactly when its MHz field is at least 10 (it cannot exceed 63) |
| Sdhc.FragmentCoversData | src/drivers/hollywood_sdhc.c:488-502 | without 16-bit wrap, the data is accepted exactly when it is a whole number of at most 512 blocks of min(datalen, blklen) bytes, and then the blocks cover it exactly |
| Sdhc.FragmentWithoutData | src/drivers/hollywood_sdhc.c:473-474 | a command without data has no blocks (also line 488) |
| Sdhc.FragmentCountWraps | src/drivers/hollywood_sdhc.c:474 | 65536 blocks of 512 bytes wrap the 16-bit block count to 0 and pass the 512-block limit (also lines 490, 499) |
| Sdhc.ModeWordFields | src/drivers/hollywood_sdhc.c:504-517 | READ exactly for reads; BLOCK_COUNT, MULTI_BLOCK and AUTO_CMD12 exactly when there are blocks; DMA exactly when the host uses it; nothing else |
| Sdhc.CommandIndex | src/drivers/hollywood_sdhc.c:522-523 | the command index is the opcode modulo 64 |
| Sdhc.CommandLowFields | src/drivers/hollywood_sdhc.c:525-539 | the low byte carries CRC check, index check, data present and the response type, each in its own bit |
| Sdhc.WordOfIndexAndLow | src/drivers/hollywood_sdhc.c:522-539 | the index in the upper byte does not disturb the low bits |
| Sdhc.CommandWordFields | src/drivers/hollywood_sdhc.c:519-539 | the command word has the index in the upper byte, the check and data-present bits exactly as asked, and the first of no response, 136, 48 with busy, 48 as the response type |
| Sdhc.TransferWordPacked | src/drivers/hollywood_sdhc.c:564 | the transfer-mode word is the command in the upper half and the mode in the lower half |
| Sdhc.BlockSizeField | src/drivers/hollywood_sdhc.c:560 | the block-size register is the size plus the 512 KiB boundary code 7 at bit 12 |
| Sdhc.BoundaryOr | src/drivers/hollywood_sdhc.c:560 | OR-ing 7 << 12 into a size below 4096 adds it |
| Sdhc.WaitState | src/drivers/hollywood_sdhc.c:386-398 | succeeds exactly when one of the 500 readings shows the value under the mask, else ETIMEDOUT |
| Sdhc.Command.constructor | src/drivers/hollywood_sdhc.c:400-470 | a cleared command with its opcode, argument and flags |
| Sdhc.Host.constructor | src/drivers/hollywood_sdhc.c:183-188 | the host structure cleared |
| Sdhc.Host.Read2 | src/drivers/hollywood_sdhc.c:66-71 | the 16-bit read gives the two register bytes, from the aligned word |
| Sdhc.Host.Read1 | src/drivers/hollywood_sdhc.c:73-83 | the 8-bit read gives the register byte |
| Sdhc.Host.Write4 | src/drivers/hollywood_sdhc.c:85-87 | the word is stored in its four bytes and nothing else changes |
| Sdhc.Host.Write2AsWritten | src/drivers/hollywood_sdhc.c:89-94 | bus_space_write_2 as written leaves the register as it was |
| Sdhc.Host.Write2 | src/drivers/hollywood_sdhc.c:89-94 | the intended write: the half-word reads back, the aligned word is the intended merge and no other byte changes |
| Sdhc.Host.Write1 | src/drivers/hollywood_sdhc.c:96-106 | the intended write: the byte reads back, the aligned word is the intended merge and no other byte changes |
| Sdhc.Host.Found | src/drivers/hollywood_sdhc.c:163-235 | DMA exactly when asked and supported; the base clock from the capabilities; 0 exactly when it is within 10-63 MHz, then with the 3.2-3.4 V windows in the OCR, else 1 |
| Sdhc.Host.StartCommand | src/drivers/hollywood_sdhc.c:472-569 | fails with the fragmenting error or ETIMEDOUT without touching a register; otherwise the registers are Issued with the plan |
| Sdhc.Host.Issue | src/drivers/hollywood_sdhc.c:545-564 | the register file becomes IssuedImage |
| Sdhc.Host.ExecCommand | src/drivers/hollywood_sdhc.c:400-470 | sets the default timeout (5000 with data, 500 without); a start failure is recorded with nothing else changed; a command that never completes gets ETIMEDOUT; a completed one copies a 136-bit response as 15 bytes or a short one as one word and may time out in its DMA transfer; the command is always marked done and data_command cleared |
| Sdhc.Host.Finish | src/drivers/hollywood_sdhc.c:419-469 | the error, response and done flag ExecCommand states |
| Sdhc.Host.ReadLongResponse | src/drivers/hollywood_sdhc.c:449-454 | bytes 0-14 of the response come from the response registers and byte 15 is kept |
| Sdhc.Put4 | src/drivers/hollywood_sdhc.c:85-87 | a stored word reads back and other bytes are kept |
| Sdhc.Put2 | src/drivers/hollywood_sdhc.c:89-94 | a stored half-word reads back and other bytes are kept |
| Sdhc.IssuedImageMeaning | src/drivers/hollywood_sdhc.c:545-564 | the writes set the DMA address (with DMA), block size, block count (with blocks), argument, mode and command, leaving every other register |
| Sdhc.IssuedFront | src/drivers/hollywood_sdhc.c:545-562 | the first writes set DMA address, block size and count and do not reach the argument |
| Sdhc.IssuedBack | src/drivers/hollywood_sdhc.c:563-564 | the last two writes set argument and transfer mode and nothing else |
| Sdhc.WordBase | src/drivers/hollywood_sdhc.c:68 | `& ~3` gives the aligned word holding the register (also line 82) |
| Sdhc.HighHalf | src/drivers/hollywood_sdhc.c:68 | AND with 0xffff0000 keeps the high half of the word in place |
| Sdhc.LaneBits | src/drivers/hollywood_sdhc.c:78-82 | the bits under 0xff shifted to lane k are that lane's byte, in place |
| Sdhc.MaskedLane | src/drivers/hollywood_sdhc.c:101-105 | clearing the bits under 0xff shifted to a lane subtracts that lane's byte from the word (also line 52) |
| Sdhc.MergeByteAt | src/drivers/hollywood_sdhc.c:49-54 | the intended mask32 with the lane's mask and the shifted byte replaces that lane's byte with v (also lines 101-105) |
| Sdmmc.BlockArgument | src/drivers/hollywood_sdmmc.c:342-345 | a block-addressed card gets the block number; any other card the byte address blk_start * 512 in 32 bits, a multiple of 512 and exact below block 2^23 (also lines 384-387) |
| Sdmmc.TransferPlanSmall | src/drivers/hollywood_sdmmc.c:341-349 | up to 512 blocks: datalen is blk_count * 512 and the host accepts the command as that many 512-byte blocks (none for zero blocks) with the mode word for a read or a write (also lines 383-391) |
| Sdmmc.WholeBlocks | src/drivers/hollywood_sdmmc.c:347-348 | k sectors of 512 bytes, k up to 512, fragment into exactly k blocks |
| Sdmmc.TransferPlanTooLarge | src/drivers/hollywood_sdmmc.c:347-348 | from 513 up to 65535 blocks, the host refuses the transfer with EINVAL |
| Sdmmc.TransferIssued | src/drivers/hollywood_sdmmc.c:341 | an accepted block command carries READ_BLOCK_MULTIPLE or WRITE_BLOCK_MULTIPLE and has the read bit exactly for reads (also lines 349, 383, 391) |
| Sdmmc.OrPlusAnd | src/drivers/hollywood_sdmmc.c:132-135 | a OR b plus a AND b is a + b (the arithmetic behind setting one OCR bit) |
| Sdmmc.Bit30 | src/drivers/hollywood_sdmmc.c:133 | AND with SD_OCR_SDHC_CAP keeps exactly bit 30 (also line 169) |
| Sdmmc.IfCondOcr | src/drivers/hollywood_sdmmc.c:131-135 | the OCR with bit 30 cleared, then set again exactly when SEND_IF_COND succeeded with 0xaa in its low response byte |
| Sdmmc.IfCondOcrCapability | src/drivers/hollywood_sdmmc.c:131-135 | bit 30 of the result is set if and only if the card answered 0xaa without error; bits 0-29 and bit 31 are the host's |
| Sdmmc.BlockAddressed | src/drivers/hollywood_sdmmc.c:169-172 | a card is block-addressed exactly when bit 30 of its OP_COND response is set |
| Sdmmc.PoweredUp | src/drivers/hollywood_sdmmc.c:161 | power-up is complete exactly when bit 31 of the response is set (also line 164) |
| Sdmmc.Rca | src/drivers/hollywood_sdmmc.c:204 | the relative card address is the upper half of the R6 response |
| Sdmmc.RcaArgument | src/drivers/hollywood_sdmmc.c:212 | the SELECT_CARD / SEND_CSD argument has the address in its upper half and zero below (also line 283) |
| Sdmmc.RcaRoundTrip | src/drivers/hollywood_sdmmc.c:204 | shifting the address out and back gives the response with its low half cleared (also line 212) |
| Sdmmc.CsdV2Size | src/drivers/hollywood_sdmmc.c:228 | version 2 C_SIZE is the 24-bit number with bytes 7, 6, 5 from high to low |
| Sdmmc.CsdV2SizeOr | src/drivers/hollywood_sdmmc.c:228 | the shift-and-OR form of the source gives that number |
| Sdmmc.CsdV1BlockLenExp | src/drivers/hollywood_sdmmc.c:237 | READ_BL_LEN is the low nibble of byte 9 |
| Sdmmc.CsdV1Size | src/drivers/hollywood_sdmmc.c:239-241 | version 1 C_SIZE is a 12-bit value |
| Sdmmc.CsdV1SizeMult | src/drivers/hollywood_sdmmc.c:242-243 | C_SIZE_MULT is a 3-bit value |
| Sdmmc.TaacIndices | src/drivers/hollywood_sdmmc.c:248 | the TAAC unit index is its low 3 bits and the value index bits 3-6; both are inside the two tables |
| Sdmmc.CsdV1Timeout | src/drivers/hollywood_sdmmc.c:246-248 | the version 1 timeout is at most 800000000 ns, so it fits 32 bits |
| Sdmmc.TableBounds | src/drivers/hollywood_sdmmc.c:246-247 | each time unit is at most 10^7 and each time value at most 80 |
| Sdmmc.CsdV1Sectors | src/drivers/hollywood_sdmmc.c:250 | corrected: the sector count is the capacity in bytes divided by 512, rounded down, with no wrap |
| Sdmmc.CapacityBound | src/drivers/hollywood_sdmmc.c:250 | any version 1 capacity is below 512 * 2^32, so its sector count fits 32 bits |
| Sdmmc.CsdV2Sectors | src/drivers/hollywood_sdmmc.c:227-231 | version 2: timeout 250 ms; (C_SIZE + 1) * 1024 sectors modulo 2^32: exact below 0x3FFFFF, 0 at 0x3FFFFF (the 22-bit maximum the SD standard allows); a C_SIZE with the reserved bits of byte 7 set wraps modulo 2^32 as well |
| Sdmmc.CsdV1SectorsExact | src/drivers/hollywood_sdmmc.c:234-250 | version 1 with 512 to 2048-byte blocks: sectors * 512 is the capacity, and the timeout is unit * value / 10 from the TAAC tables |
| Sdmmc.CsdV1AsWrittenAgrees | src/drivers/hollywood_sdmmc.c:250 | below 4 GiB the driver's 32-bit product gives the corrected count |
| Sdmmc.CsdV1FourGiBWraps | src/drivers/hollywood_sdmmc.c:250 | a 4 GiB version 1 card (C_SIZE 0xfff, C_SIZE_MULT 7, READ_BL_LEN 11): as written 0 sectors, corrected 2^23 |
| Sdmmc.Card.constructor | src/drivers/hollywood_sdmmc.c:55-68 | the card record is cleared and bound to its host |
| Sdmmc.Card.AckCard | src/drivers/hollywood_sdmmc.c:309-316 | returns 0 exactly when a new card was pending, and clears it; a new card then reads as inserted and any other state is unchanged |
| Sdmmc.Card.GetSectors | src/drivers/hollywood_sdmmc.c:403-417 | -1 without a card or with an unacknowledged one, else the sector count as a 32-bit int |
| Sdmmc.Card.Select | src/drivers/hollywood_sdmmc.c:277-297 | 0 exactly when SELECT_CARD is answered, and then the card is selected; the command carries the card's address |
| Sdmmc.Card.Transfer | src/drivers/hollywood_sdmmc.c:318-401 | 0 exactly when a card is inserted, is or becomes selected, is acknowledged, and the block command goes through; a command that reaches the controller carries the block argument, the opcode and the read bit |
| Sdmmc.Card.RunBlockCommand | src/drivers/hollywood_sdmmc.c:340-355 | succeeds exactly when the host accepts the block command, the bus answers and DMA does not time out; the issued registers hold argument, opcode and read bit (also lines 382-397) |
| Sdmmc.Card.DrvInit | src/drivers/hollywood_sdmmc.c:419-452 | NO_HARDWARE exactly when no card is inserted, and then nothing changes; otherwise the card is acknowledged, block 0 is read and the driver is READY |
| Sdmmc.Card.DrvCleanup | src/drivers/hollywood_sdmmc.c:459-463 | the callback is removed from the table and the driver is NOT_READY |
| Elf.Be32RoundTrip | src/elf.c:18-19 | a 32-bit header field written big-endian reads back as the same value (also line 56) |
| Elf.CheckValid | src/elf.c:18-46 | -1 exactly when the first 4 bytes are not the ELF magic; 0 exactly when they are and the header is a 32-bit, big-endian, ET_EXEC, PowerPC one; -2 exactly in the remaining cases |
| Elf.Examine | src/elf.c:60-86 | a header is copied exactly when it is PT_LOAD, has a non-zero physical or virtual address, and non-zero file and memory sizes; the size is the smaller of the two, the source is p_offset and the destination is the cached view of p_paddr, or of p_vaddr when p_paddr is 0 |
| Elf.Span | src/elf.c:94 | the span holds exactly the addresses dest to dest + n - 1 |
| Elf.StoredCopies | src/elf.c:94 | after memcpy the copied bytes are at dest onwards |
| Elf.StoredKeeps | src/elf.c:94 | memcpy leaves every address outside its range unchanged |
| Elf.Ram.constructor | src/elf.c:48 | RAM with the given contents |
| Elf.Ram.Copy | src/elf.c:94 | RAM becomes the stored image of the copy |
| Elf.Steps | src/elf.c:56-58 | one step per program header, e_phnum of them, header k at e_phoff + k * e_phentsize, each copying from inside the image (also line 100) |
| Elf.LoadMem | src/elf.c:48-109 | the corrected loader, with the cursor advanced every iteration, ends with the outcome and RAM of Load |
| Elf.LoadSegment | src/elf.c:60-98 | a skipped header leaves RAM as it was; a copy to a valid address stores the segment; a copy to an invalid address fails with RAM unchanged |
| Elf.LoadFromStep | src/elf.c:58-101 | loading is one step and then the rest, or a stop with -2 when the step's address is invalid |
| Elf.LoadOutcome | src/elf.c:88-91 | the loader returns -2 if and only if some remaining header copies to an invalid address; otherwise it enters the physical entry point (also lines 104-107) |
| Elf.LoadKeepsOtherRam | src/elf.c:94 | RAM that no remaining copy covers keeps its byte |
| Elf.LoadPlacesSegment | src/elf.c:94 | after a successful load, each byte of a segment that no later segment overwrites equals the image byte at p_offset + j |
| Elf.AsWrittenStuck | src/elf.c:60-78 | as written: once the cursor is on a skipped header, every later iteration skips it again, RAM is not touched and the loader enters the entry point (also line 100) |
| Elf.AsWrittenAgreesWithoutSkips | src/elf.c:58-101 | as written and corrected loaders agree when no header is skipped |
| Elf.SkipThenLoad | src/elf.c:58-101 | for two headers, a skipped one followed by a loadable one: as written RAM is unchanged, corrected the segment is stored |
| Elf.TwoSteps | src/elf.c:58-101 | a skip then a valid copy stores exactly that segment |
| Elf.NoteHidesSegment | src/elf.c:58-101 | a concrete 120-byte image with a PT_NOTE header before its PT_LOAD one: as written the segment is never loaded, corrected byte 0x48 lands at 0x80003000 |
| Ctype.IsXDigit | src/libc/ctype.c:14-18 | a decimal digit, or a letter a-f in either case |
| Ctype.IsAlpha | src/libc/ctype.c:28-30 | a letter in either case, which is one whose lowercase form is lowercase |
| Ctype.IsAlnum | src/libc/ctype.c:32-34 | exactly the 62 codes 48-57, 65-90 and 97-122, none of them punctuation or space |
| Ctype.IsBlank | src/libc/ctype.c:36-38 | exactly tab (9) and space (32); BlankIsSpace places them among the spaces |
| Ctype.BlankIsSpace | src/libc/ctype.c:36-43 | a blank is a space and neither alphanumeric nor punctuation; the spaces that are not blank are exactly the codes 10 to 13 |
| Ctype.IsSpace | src/libc/ctype.c:40-43 | exactly the codes 9 to 13 and 32 |
| Ctype.IsPunct | src/libc/ctype.c:45-53 | the seven ranges are exactly the printable codes 33-126 that are not alphanumeric |
| Ctype.ToUpper | src/libc/ctype.c:55-57 | a lowercase letter becomes the uppercase letter at the same position; every other code is kept |
| Ctype.ToLower | src/libc/ctype.c:59-61 | an uppercase letter becomes the lowercase letter at the same position; every other code is kept |
| Ctype.PrintableClasses | src/libc/ctype.c:10-53 | every printable non-space code is a digit, a letter or punctuation, and only one |
| Ctype.CaseMapsIdempotent | src/libc/ctype.c:55-61 | both mappings are idempotent, and neither leaves a letter of the other case |
| Ctype.CaseRoundTrip | src/libc/ctype.c:55-61 | tolower undoes toupper on lowercase letters, and toupper undoes tolower on uppercase ones |
| Ctype.CaseMapsKeepClasses | src/libc/ctype.c:10-34 | toupper keeps isalpha, isalnum, isxdigit and isdigit (also lines 55-57) |
| Stdlib.SkipSpace | src/libc/stdlib.c:22-24 | the scan stops at the first character that is not white space, and every character passed over is white space |
| Stdlib.GuessBase | src/libc/stdlib.c:36-48 | an explicit base is kept without consuming anything; base 0 becomes 8, 10 or 16 |
| Stdlib.SetupScan | src/libc/stdlib.c:17-55 | the pointer-advancing setup computes SetupOf: the position after white space, sign and prefix, the base and the sign |
| Stdlib.SetupMeaning | src/libc/stdlib.c:17-50 | the sign is negative exactly when '-' follows the white space; an explicit base is kept and only white space and one sign are consumed; a guessed base is 8, 10 or 16 |
| Stdlib.DigitValue | src/libc/stdlib.c:75-82 | '0'-'9' are worth 0-9, and letters of either case 10-35 |
| Stdlib.RunEnd | src/libc/stdlib.c:64-92 | the run of digits ends at the first character the rule refuses (the terminating 0 included), and every character before it is accepted |
| Stdlib.RunEndIs | src/libc/stdlib.c:64-92 | a position whose predecessors are all accepted and which is itself refused is the end of the run |
| Stdlib.WrappedIsReduced | src/libc/stdlib.c:89-90 | accumulating val * base + digit in a word of width values gives the digits' value modulo the width |
| Stdlib.Convert | src/libc/stdlib.c:57-101 | the conversion loop computes Conversion with the intended digit rule: a panic for an unsupported base, else the value modulo the word, negated after '-', and the end position |
| Stdlib.Accumulate | src/libc/stdlib.c:64-92 | the loop stops at the end of the run of digits below the base, with the digits' value modulo the word |
| Stdlib.Strtol | src/libc/stdlib.c:57-101 | the conversion, with the corrected digit rule, in 32 bits read as a signed long, with the end position |
| Stdlib.Strtoul | src/libc/stdlib.c:103-106 | the 32 bits of strtol as an unsigned value below 2^32 |
| Stdlib.Strtoll | src/libc/stdlib.c:108-152 | the same conversion, with the corrected digit rule, in 64 bits read as a signed long long |
| Stdlib.Strtoull | src/libc/stdlib.c:154-157 | corrected: the 64 bits of strtoll as an unsigned value below 2^64 |
| Stdlib.Format | src/libc/stdlib.c:75-86 | the digits of n in the base, at least one, each an alphanumeric worth less than the base |
| Stdlib.DigitChar | src/libc/stdlib.c:75-82 | the character for a digit value is alphanumeric and worth that value |
| Stdlib.FormatRoundTrip | src/libc/stdlib.c:89-90 | the digits' value of Format(n) is n |
| Stdlib.SignText | src/libc/stdlib.c:26-30 | a minus sign when negative, nothing otherwise |
| Stdlib.ParseFormatted | src/libc/stdlib.c:17-101 | parsing an optional '-' and the digits of n, followed by a non-digit, gives n (negated after '-') modulo the word and ends right after the digits |
| Stdlib.SignedNegation | src/libc/stdlib.c:97-98 | negating a magnitude up to half the word modulo the word reads back as its negative in two's complement |
| Stdlib.StrtolRoundTrip | src/libc/stdlib.c:57-101 | strtol gives back every 32-bit long from its decimal text |
| Stdlib.RulesDiffer | src/libc/stdlib.c:68-86 | the rule as written and the intended one differ exactly on a digit worth the base in base 8 or 10 (taken only as written) and on the letters a-f in base 16 (taken only as intended) |
| Stdlib.HexRunHasNoLetters | src/libc/stdlib.c:72-73 | as written, base 16 consumes decimal digits only |
| Stdlib.HexLetterStops | src/libc/stdlib.c:72-73 | "0x1f" in base 0: as written 1 ending at the 'f', intended 31 ending after it |
| Stdlib.DigitEqualToBase | src/libc/stdlib.c:85-86 | "8" in base 8: as written 8 with one character consumed, intended 0 with none |
| Stdlib.StrtoullAsWritten | src/libc/stdlib.c:154-157 | as written, strtoull keeps only the low 32 bits of the source's strtoll, digit rule as written, so its result is below 2^32 |
| Stdlib.StrtoullTruncates | src/libc/stdlib.c:154-157 | for every n from 2^32 to 2^64 - 1, strtoull as written returns n mod 2^32 where the intended one returns n |
| Stdlib.StrtoullTwoTo32 | src/libc/stdlib.c:154-157 | "4294967296" reads as 0 as written and as 2^32 intended |
| Stdlib.AsWrittenKeepsLowHalf | src/libc/stdlib.c:57-157 | on any input, strtoull as written gives exactly what the source's 32-bit strtoul gives (same digits, same end, the value modulo 2^32, negated modulo 2^32 after a minus); on "0x1f" with base 0 that is 1, ending at the 'f' |
| Stdlib.LowHalfOfWord | src/libc/stdlib.c:156 | the cast to 32 bits of a value already reduced to 64 bits is the value reduced to 32 bits |
| Stdlib.LowHalfOfNegation | src/libc/stdlib.c:156 | negating modulo 2^64 and then casting to 32 bits is negating the low half modulo 2^32 |

## Left out

- Inline assembly and processor primitives are not modelled as code. This covers `mftb`, `mfmsr`/`mtmsr`, `dcbst`/`icbi`/`sync`, `IRQ_Enable`, `IRQ_Disable` and `IRQ_Return`, the 0x2200 exception body and `ELF_DoEntry`. The timebase is an input; MSR.EE is a field of `Irq.InterruptController`; cache operations are the list of line addresses they touch; the ELF entry jump is the `Enter` outcome.
- Platform bring-up (`src/init.c` and the per-console init files), IOS IPC, the menu, system information and `src/log.c` are not part of this model. Neither are the pure register-poke drivers (`src/tiny_usbgecko.c`, GPIO, the Latte framebuffer, the debug platform hooks) or the host-side uploader.
- All `printf`, `log_printf`, `log_puts` and `DPRINTF` output is left out. Where the text is the point, as with the USB Gecko banner (`src/drivers/usbgecko.c:108-111`), it is not modelled either.
- `udelay` delays inside drivers are left out. Most status-register spin loops are modelled as reads from an input sequence, bounded where the source bounds them. Where the source does not bound them, the model requires a sample that ends the spin (see the UsbGecko.Gecko and Drc.DrcConsole lines below). The EXI transfer spins are not modelled at all (see Exi.ExiBus.XferImm).
- Concurrency between interrupt handlers and mainline code is not modelled. Every operation runs to completion before the next starts.
- `panic`'s platform action (LED blinking, reset, stack-protector reporting) is left out; a panic is a terminal outcome.
- Header files that are not part of this model are replaced as follows:
  - the SD host controller register map and the SD/MMC command and flag headers follow the SD Host Controller and SD Physical Layer standards;
  - `elf_abi.h` follows TIS ELF 1.2 Book I;
  - the VI mode numbers, Hollywood IRQ bit positions and errno values are named constants or datatypes;
  - the Latte IPC values `LATTE_IPC_CMD_PRINT` (taken as 0x01000000, `Drc.CMD_PRINT`) and `HW_IPC_PPCCTRL_X1`: the first is assumed, the second is bit 0 as `include/npll/regs.h:23` defines it;
  - the EXI transfer modes `EXI_MODE_READ` (1) and `EXI_MODE_WRITE` (2) are assumed, and so is the read/write mode 3 the USB Gecko passes to `H_EXIRdWrImm` (`UsbGecko.MODE_RDWR`).
- Video.VideoConsole.Register: the palette is an input, and the loader's 10-entry colour table is not modelled. As a consequence, three facts go unmodelled: `C_LGRAY` (14) indexes past the end of that table; colour 0 selects white (`src/video.c:37-43`, `src/video.c:181-182`); and a colour byte of 10 or above after a 0xff or 0xfe prefix reads past the table (`src/video.c:74`), where Video.Render and Video.ColourPrefix take `palette(c)` for any byte.
- MiniIpc.MiniState.Init: the ping and version self-test that follows the ring setup (`src/wii/mini_ipc.c:100-107`) is not modelled.
- UsbGecko.Gecko.AwaitTx: requires a status sample that ends the TX-ready spin (`src/drivers/usbgecko.c:41-43`). The model assumes the adapter eventually reports ready; the source spins forever if it never does.
- UsbGecko.Gecko.WriteChar: requires a status sample that ends the TX-ready spin (`src/drivers/usbgecko.c:41-43`). The model assumes the adapter eventually reports ready; the source spins forever if it never does.
- UsbGecko.Gecko.WriteStr: requires, for each character, a status sample that ends the TX-ready spin (`src/drivers/usbgecko.c:41-43`). The model assumes the adapter eventually reports ready; the source spins forever if it never does.
- Drc.DrcConsole.Post: requires a PPCCTRL sample with X1 clear for each message it posts (`src/drivers/drc_ipc_text.c:25`, `src/drivers/drc_ipc_text.c:59`). The model assumes the ARM side eventually clears X1; the source spins forever if it never does.
- Drc.DrcConsole.WriteChar: requires a PPCCTRL sample with X1 clear for each message it posts (`src/drivers/drc_ipc_text.c:25`, `src/drivers/drc_ipc_text.c:59`). The model assumes the ARM side eventually clears X1; the source spins forever if it never does.
- Drc.DrcConsole.WriteStr: requires a PPCCTRL sample with X1 clear for each message it posts (`src/drivers/drc_ipc_text.c:25`, `src/drivers/drc_ipc_text.c:59`). The model assumes the ARM side eventually clears X1; the source spins forever if it never does.
- Drc.DrcConsole.PostChunk: requires a PPCCTRL sample with X1 clear for each message it posts (`src/drivers/drc_ipc_text.c:25`, `src/drivers/drc_ipc_text.c:59`). The model assumes the ARM side eventually clears X1; the source spins forever if it never does.
- Drc.DrcConsole.Init: requires a PPCCTRL sample with X1 clear for each message it posts (`src/drivers/drc_ipc_text.c:25`, `src/drivers/drc_ipc_text.c:59`). The model assumes the ARM side eventually clears X1; the source spins forever if it never does.
- UsbGecko.Gecko.Init: the banner written through the adapter is not modelled.
- Vi: `VI_debug`, the wait-for-vsync helpers and the black-out and shutdown paths are left out. `viDrvCleanup` only logs a to-do message (`src/drivers/vi.c:538-540`); it is not modelled.
- Vi.ViDriver.Init: the two buffers are inputs. The `M_PoolAlloc` of the YUV buffer from MEM1 and the `malloc` of the RGB buffer (`src/drivers/vi.c:520-523`) are not modelled, and neither is a NULL from either.
- Vi.ViRegs: the register offsets (STATUS1 at 0x02, FB1 at 0x1C, FB2 at 0x24) follow the Flipper VI register layout, since the header defining them is not part of this model.
- Exi.ExiBus.XferImm: neither TSTART spin is modelled (the wait for a transfer already in progress at `src/drivers/exi.c:159` and the wait for this one at `src/drivers/exi.c:213`). The transfer is taken to complete, and the DATA word read afterwards is the input `reply`.
- Sdhc: several routines are left out, because their effect on what is modelled is only through register values that are already inputs:
  - `sdhc_host_reset`, `sdhc_soft_reset`, `sdhc_bus_power`, `sdhc_bus_clock` and `sdhc_wait_intr`;
  - the interrupt handler, the PIO branch of `sdhc_transfer_data`, `sdhc_dump_regs`, `sdhc_shutdown` and `sdhc_init`.
- Sdhc.Host.ExecCommand: the DMA transfer is reduced to its outcome, which is whether it timed out. Cache flushes of the buffer, `c_resid` and `c_buf` are not modelled.
- Sdmmc: `sdmmc_needs_discover` is modelled through the decisions it takes from the card's answers: the OCR after SEND_IF_COND, power-up, block addressing, the relative address and the CSD geometry and timeout. Its command sequence with power, clock and the 100-try loop is not a method of the model. The CID log line is not modelled.
- Sdmmc.Card.DrvInit: `sdhc_init` before it and the buffer allocation around the probe read are not modelled. The buffer address is an input.
- Elf.LoadMem: the per-segment `dcache_flush` is left out.
- Stdlib.Convert: `endPtr` is the returned end position, present whatever the caller passes. `assert_msg` on an unsupported base is the `Panicked` outcome.
- Stdlib.Strtol: signed overflow of `val` is modelled as 32-bit two's-complement wrap, which C leaves undefined. The same holds for Stdlib.Strtoll with 64 bits.
- Stdlib.Strtoul: uses the corrected digit rule through `Stdlib.Convert`, as Stdlib.Strtol does. The source's `strtoul` with the rule as written is `Stdlib.Conversion(AsWritten, s, base, TWO_32)`, which `Stdlib.AsWrittenKeepsLowHalf` relates to `Stdlib.StrtoullAsWritten`.
- Stdlib.Strtol and Stdlib.Strtoll use the corrected digit rule. The rule as written is `Stdlib.Accepts(AsWritten, ...)`, and the two are compared under "Findings".
- Stdlib.Strtoull models the intended 64-bit result. `Stdlib.StrtoullAsWritten` is the 32-bit cast.
- Allocator: memory that never received a block header is taken not to hold the block magic, so `M_Free` of a pointer the allocator never handed out cannot match a stray header.
- Allocator.Allocator.PoolAllocAt: uses the corrected cur_bottom step. The step as written is `Allocator.PoolAllocAsWritten`.
- Allocator.Allocator.MPoolAllocate: allocates through the corrected step (`Allocator.PoolAlloc`), so its new cur_bottom is the header address, not the source's old - size + 8. The same holds for Allocator.MPoolAlloc.
- Allocator.Allocator.MallocBlock: allocates through the corrected step as well. The same holds for Allocator.Malloc.
- Input.InputQueue.ConsumeEvent: uses the corrected consume, which clears the top slot. The consume as written is `Input.ConsumeAsWritten`.
- Sdhc.Host.Write2 and Sdhc.Host.Write1: they store the merged word as intended. `Sdhc.Host.Write2AsWritten` models the source.
- Sdhc.Host.Issue: writes BLOCK_SIZE and BLOCK_COUNT through the corrected Sdhc.Host.Write2. As written (`src/drivers/hollywood_sdhc.c:560`, `src/drivers/hollywood_sdhc.c:562`) both registers keep their old values.
- Sdhc.Host.StartCommand: issues through Sdhc.Host.Issue, so the same corrected BLOCK_SIZE and BLOCK_COUNT writes apply.
- Sdhc.Host.StartCommand: requires `Sdhc.Fragmentable`, which excludes a data command whose fragment size `MIN(c_datalen, c_blklen)` is a multiple of 65536; the source (`src/drivers/hollywood_sdhc.c:489-490`) would divide by zero there. Every caller passes 512 or no data.
- Sdhc.IssuedImageMeaning: states the register file the corrected writes produce, with BLOCK_SIZE and BLOCK_COUNT set; the source leaves both unchanged.
- Sdhc.IssuedFront: the same corrected BLOCK_SIZE and BLOCK_COUNT writes.
- Elf.LoadMem: the header cursor advances on every iteration, as intended. `Elf.LoadAsWritten` models the source.
- Sdmmc.Card.GetSectors: the sector count is returned as a 32-bit `int`, and a count of 2^31 or more is negative, as in the source. The version 1 count it returns is the corrected one from `Sdmmc.CsdV1Sectors`.

## Findings

| source | as written | input that shows it | evidently intended | confidence | as-written member | corrected member |
|---|---|---|---|---|---|---|
| src/allocator.c:118 | `bottom -= size - sizeof(struct block)` leaves cur_bottom at old - size + 8, which is 16 bytes above the new block's header | allocate a block and then free it at once: no pool's cur_bottom equals the header, so `free` does nothing | cur_bottom moves down to the new header, old - size - 8, so the latest block can be freed | high, not executed | Allocator.FreshBlockIsNeverFreed | Allocator.FixedAllocThenFreeRestores |
| src/allocator.c:118 | the same step makes consecutive blocks overlap | two allocations from one pool: the second block ends 8 bytes above the start of the first | the second block ends at the first block's header | high, not executed | Allocator.ConsecutiveAllocationsOverlap | Allocator.ConsecutiveAllocationsDisjoint |
| src/input.c:34 | the memmove shifts slots 1-15 down one place but leaves slot 15 as it was | push 16 non-zero events and consume 17 times: the 17th consume returns the 16th event again, and queuePos becomes -1 | the top slot is cleared after the shift, so the 17th consume returns 0 | high, not executed | Input.FullQueueRepeatsLastEvent | Input.FullQueueDrainsCorrected |
| src/drivers/hollywood_sdhc.c:89-106 | `bus_space_write_2` and `bus_space_write_1` compute `mask32` but never store its result | write 1 to any 16-bit register: it still reads back its old value | the merged word is written back, so the register reads back what was written | high, not executed | Sdhc.Host.Write2AsWritten | Sdhc.Host.Write2 |
| src/drivers/hollywood_sdhc.c:49-54 | `mask32` ORs in `set` before clearing `clear`, so bits set under their own mask are cleared again | merge 1 into the upper half of a zero word: the result is 0, not 0x10000 | clear the field first, then OR in the new value | high, not executed | Sdhc.Mask32AsWrittenDropsValue | Sdhc.MergeHalves |
| src/drivers/hollywood_sdmmc.c:250 | the version 1 CSD capacity `(c_size + 1) * (4 << c_size_mult) * (1 << read_bl_len)` is formed in 32-bit unsigned arithmetic | a 4 GiB card with C_SIZE 0xfff, C_SIZE_MULT 7 and READ_BL_LEN 11 gives 0 sectors | 2^23 sectors, the capacity divided by 512 | medium, not executed | Sdmmc.CsdV1FourGiBWraps | Sdmmc.CsdV1Sectors |
| src/elf.c:60-100 | the program-header cursor advances only after a segment is copied | a PT_NOTE header followed by a PT_LOAD header: the PT_NOTE header is examined twice, and the PT_LOAD segment is never loaded | the cursor advances once per iteration, so every header is examined once | high, not executed | Elf.NoteHidesSegment | Elf.LoadMem |
| src/libc/stdlib.c:72-73 | in any base above 10, conversion stops at the first letter | "0x1f" with base 0 gives 1 and ends at the 'f' | 31, ending after the 'f' | high, not executed | Stdlib.HexLetterStops | Stdlib.Convert |
| src/libc/stdlib.c:85-86 | `digit > base` accepts a digit equal to the base | "8" in base 8 gives 8 and consumes the '8' | the '8' is refused, giving 0 with nothing consumed | high, not executed | Stdlib.DigitEqualToBase | Stdlib.Convert |
| src/libc/stdlib.c:156 | `strtoull` casts the `long long` result through the 32-bit `unsigned long` | "4294967296" gives 0 | 4294967296 | high, not executed | Stdlib.StrtoullTwoTo32 | Stdlib.Strtoull |
