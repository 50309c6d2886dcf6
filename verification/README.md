# Verified model of Nachos

Nachos, as changed in this repository, is a small operating system that runs on a simulated machine:
threads and synchronisation, a file system over a simulated disk, demand paging and a TLB, an
interrupt queue and clock, a MIPS interpreter, and a post office over an unreliable network.  This
project models the parts of it that carry state from step to step and proves what they keep.

`dafny verify dfyconfig.toml` checks everything.

## How it is laid out

| file | what it models |
|---|---|
| `Semaphores.dfy` | semaphores with Mesa-style retry and barging, and locks built on them |
| `SynchDisk.dfy` | synchronous disk access with its sector cache, over any number of threads |
| `SharedDisk.dfy` | why the file system may see that as one disk of whole sectors |
| `ReadersWriters.dfy` | the per-sector readers/writers protocol |
| `SynchLists.dfy` | the monitor around a shared list |
| `Threads.dfy` | thread states, the ready list, dispatching and deletion |
| `PostOffices.dfy` | mailboxes over a network that drops packets |
| `Paging.dfy`, `Tlb.dfy` | the page-table and the TLB branch of translation, with their fault handlers |
| `Lists.dfy`, `Interrupts.dfy` | the linked list, the interrupt queue and the clock |
| `DiskTiming.dfy` | seek, rotation and track-buffer arithmetic |
| `Multiply.dfy`, `Mips.dfy` | the 64-bit multiplication and the instruction interpreter |
| `InstructionLaws.dfy` | what its instructions mean: bit by bit, modulo 2^32, and by the identities compilers rely on |
| `Basics.dfy` | what several modules share |
| `Bytes.dfy`, `Bitmaps.dfy` | little-endian integers; bit maps in 32-bit words |
| `FileHeaders.dfy`, `HeaderCode.dfy` | file headers: allocation, index blocks, extension; on values and on objects |
| `OpenFiles.dfy` | reading and writing byte ranges through sectors |
| `Directories.dfy` | the directory table |
| `Volumes.dfy`, `FileSystems.dfy`, `FileSystemCode.dfy` | the volume as a whole, its runs, and format, Create and Remove on objects |

Protocols between threads are step relations over one shared state: a step is what the code does
between two points where another thread may run.  Code that one thread runs by itself is a class whose
methods are proved against functions on values, and the laws are lemmas about those functions.

Where the code does not do what its comments promise, the model follows the code and a lemma says
exactly when the promise holds:

- `myFind` (userprog/bitmap.cc:168) tests past the end of the map and aborts when there is space but no
  run: `Bitmaps.SearchRunMeans`, `Volumes.CreateFails`.
- `Allocate` (filesys/filehdr.cc:48) does not count the index block, and index entries are read back as
  one signed byte: `FileHeaders.AllocateLargeTakes`, `ByteToSectorRightIff`, `AllocateDeallocateLargeIff`.
- `Extend` (filesys/filehdr.cc:262) fills direct slots only and changes the lengths before it can fail,
  and `WriteAt` ignores its answer: `FileHeaders.ExtendRightIff`, `Volumes.WriteConservesIff`.
- Reading or writing puts the handle's copy of the header back on the disk, so two handles on one file
  lose sectors once one of them makes the file grow: `Volumes.RewriteConservesIff`,
  `FileSystems.ReadsInvIff`, `FileSystems.SecondHandleRun`.
- A finished thread is deleted only by a dispatch that resumes a thread that has run before; another
  Finish before that loses it: `Threads.FinishDeletesIff`, `Threads.FinishForgets`.
- `Idle` (machine/interrupt.cc:211) can return with a due timer interrupt still pending, and interrupts
  for the same time do not keep their order: `Interrupts.IdleInv`, `Interrupts.TickKeepsOrderIff`,
  with runs in `IdleLeavesTimer` and `TiesSwap`.
- Only LWL, LWR, SWL and SWR can stop the simulator, on addresses that are no multiple of four:
  `Mips.StopsIff`.
- OR (machine/mipssim.cc:383) combines rs with itself, SRL and SRLV shift a signed int, and JALR writes rd before
  it reads rs: `InstructionLaws.OrRightIff`, `SrlRightIff`, `JalrRightIff`.

## Model

| member | source | states |
|---|---|---|
| `Semaphores.RunCounts` | nachos/nachos-3.4/code/threads/synch.cc:65-99 | in every state of every run of P and V with barging, value = initial + Vs - completed Ps, and while threads sleep in the queue the value is at most the number of woken threads that have yet to retry |
| `Semaphores.NoStrandedWaiter` | nachos/nachos-3.4/code/threads/synch.cc:65-99 | while a unit is available and some thread is inside P, a thread inside P is awake and its retry succeeds |
| `Semaphores.TryPKeepsInv` | nachos/nachos-3.4/code/threads/synch.cc:65-80 | one attempt of P keeps the semaphore's invariant: sleepers distinct and apart from the woken, and no more units than woken threads while anyone sleeps |
| `Semaphores.VKeepsInv` | nachos/nachos-3.4/code/threads/synch.cc:88-99 | V keeps that invariant, takes the first sleeper out of the queue and wakes no one else |
| `Semaphores.WokenAtItsTurn` | nachos/nachos-3.4/code/threads/synch.cc:65-99 | in every run, a thread that finds the value 0 in P while k others sleep is in the queue until the (k+1)-th V from then on, and that V wakes it |
| `Semaphores.RunLockExclusive` | nachos/nachos-3.4/code/threads/synch.cc:114-126 | a Lock has at most one holder in every run in which only holders release |
| `Semaphores.ReleaseSafeIffHolder` | nachos/nachos-3.4/code/threads/synch.cc:121-126 | exclusion survives a Release in every continuation if and only if the releasing thread holds the lock |
| `SynchDisk.Linearizable` | nachos/nachos-3.4/code/filesys/synchdisk.cc:86-158 | for any threads and any interleaving there is one legal order of all sector reads and writes; every event in it is an operation that was invoked, a write with the data it was invoked with; each is in it at most once, between its call and its return, and a returned one with the data it returned |
| `SynchDisk.RealTimeOrder` | nachos/nachos-3.4/code/filesys/synchdisk.cc:86-158 | that order puts an operation that returned before another was called before it |
| `SharedDisk.ActOut` | nachos/nachos-3.4/code/filesys/synchdisk.cc:86-158 | acting out a log with whole-sector reads and writes on one disk gives every operation the data it returned, and leaves the disk as the log says |
| `SharedDisk.RunLogs` | nachos/nachos-3.4/code/filesys/synchdisk.cc:86-158 | the log of every run of threads that write whole sectors can be acted out so |
| `SynchDisk.StaleOnlyWhileWriting` | nachos/nachos-3.4/code/filesys/synchdisk.cc:95-157 | at most one cache entry is valid, and it differs from the disk only while a writer of its sector is between its disk write and its invalidation |
| `SynchDisk.OneRequestAtATime` | nachos/nachos-3.4/code/filesys/synchdisk.cc:90-170 | whenever the lock is free the completion semaphore is 0 and the disk inactive; a request finds the disk inactive and each P consumes the V of its own request, also on cache hits |
| `SynchDisk.NeverStuck` | nachos/nachos-3.4/code/filesys/synchdisk.cc:86-170 | while an operation is under way some thread or the disk interrupt can make progress |
| `ReadersWriters.ReadersExcludeWriters` | nachos/nachos-3.4/code/filesys/synchdisk.cc:173-202 | in every state of every run, for each sector, never two writers nor a writer with an active reader, and reader_num is never negative |
| `ReadersWriters.NeverDeadlocks` | nachos/nachos-3.4/code/filesys/synchdisk.cc:173-202 | while a thread is inside the protocol some thread can take a step that is not a failed retry, although one readerLock serves all sectors |
| `SynchLists.RemovedIsPrefix` | nachos/nachos-3.4/code/threads/synchlist.cc:53-82 | what was removed is, in order, a prefix of what was appended, and the list holds the rest |
| `SynchLists.CallersSeeFifo` | nachos/nachos-3.4/code/threads/synchlist.cc:53-82 | in every state of every run, what the calls of Append were given, in the order their insertions took effect, is what the calls of Remove have returned, in order, then at most one item in the hand of a remover about to return, then the list |
| `SynchLists.SignalledAtItsTurn` | nachos/nachos-3.4/code/threads/synch.cc:138-154 | a remover that goes to sleep while k others sleep on the condition sleeps until the (k+1)-th signal from then on, and that one wakes it |
| `SynchLists.OneThreadInside` | nachos/nachos-3.4/code/threads/synchlist.cc:53-82 | one thread at a time touches the list, and a remover that saw an item still finds it |
| `SynchLists.NoLostWakeup` | nachos/nachos-3.4/code/threads/synch.cc:138-154 | in every state in which threads wait on the condition, the list is no longer than the number of signalled waiters still to re-check plus the item of an appender that has inserted and not yet signalled |
| `SynchLists.NeverStuck` | nachos/nachos-3.4/code/threads/synchlist.cc:53-82 | unless all threads are idle or asleep on an empty list, some thread can make progress |
| `Threads.ExactlyOnePlace` | nachos/nachos-3.4/code/threads/thread.cc:166-259 | in every reachable state a forked unfinished thread is on the CPU, once on the ready list, or once in one wait queue, as its status says |
| `Threads.FinishedNeverRuns` | nachos/nachos-3.4/code/threads/thread.cc:166-182 | in every continuation of a run a finished thread never gets the CPU or the ready list again |
| `Threads.DeletedNeverCurrent` | nachos/nachos-3.4/code/threads/scheduler.cc:103-148 | a thread that is deleted has finished, was not deleted before and is not current |
| `Threads.RunsAtItsTurn` | nachos/nachos-3.4/code/threads/scheduler.cc:53-87 | a thread with j threads ahead of it on the ready list gets the CPU at the (j+1)-th dispatch, whatever the run does |
| `Threads.WokenAtItsTurn` | nachos/nachos-3.4/code/threads/synch.cc:67-99 | a thread that goes to sleep behind j others stays in its wait queue until the (j+1)-th wakeup of that queue, which puts it at the end of the ready list |
| `Threads.DeletedInRunIff` | nachos/nachos-3.4/code/threads/scheduler.cc:103-148 | over a run, a thread that waits in threadToBeDestroyed is deleted if and only if some step resumes a thread that has run before and no other thread has finished by then |
| `Threads.FinishDeletesIff` | nachos/nachos-3.4/code/threads/thread.cc:166-182 | from its Finish on, a thread is deleted if and only if the dispatch of its own Finish, or one before another thread finishes, resumes a thread that has run before |
| `Threads.ForgottenForever` | nachos/nachos-3.4/code/threads/thread.cc:166-182 | a finished thread that a later Finish overwrote in threadToBeDestroyed is never deleted |
| `Threads.FinishForgets` | nachos/nachos-3.4/code/threads/thread.cc:166-182 | a run in which that happens: two new threads that finish one after the other |
| `Threads.Scheduler.ReadyToRun` | nachos/nachos-3.4/code/threads/scheduler.cc:53-61 | appending a cell to the linked ready list puts the thread at the end of the kernel's ready sequence, and nothing else changes |
| `Threads.Scheduler.FindNextToRun` | nachos/nachos-3.4/code/threads/scheduler.cc:71-87 | unlinking the first cell gives the thread that has waited longest: put back in front it restores the kernel state; none exactly when no thread is ready |
| `Threads.Scheduler.Yield` | nachos/nachos-3.4/code/threads/thread.cc:202-223 | on the linked ready list, the kernel step Yield, keeping the kernel invariant |
| `Threads.Scheduler.Sleep` | nachos/nachos-3.4/code/threads/thread.cc:244-259 | on the linked ready list, the kernel step Sleep, which idles when no thread is ready, keeping the kernel invariant |
| `Threads.Scheduler.Finish` | nachos/nachos-3.4/code/threads/thread.cc:166-182 | on the linked ready list, the kernel step Finish, keeping the kernel invariant |
| `PostOffices.ReceivedInOrder` | nachos/nachos-3.4/code/network/post.cc:221-329 | messages received from a mailbox that came from one machine are, in order and byte for byte, a subsequence of those that machine sent to it, over a network that may drop packets |
| `PostOffices.PipeIsArrived` | nachos/nachos-3.4/code/network/post.cc:221-291 | in every state of every run, what a machine has delivered and what is on its way to its mailboxes are exactly the messages sent to it that the network did not lose, in order |
| `PostOffices.NothingElseLost` | nachos/nachos-3.4/code/network/post.cc:221-329 | what was received from a mailbox, what lies in it and what is on its way to it are the messages for it that were not lost; once socket and inbox are empty and the worker waits, the received ones and those in the mailbox are all of them |
| `PostOffices.MailMoves` | nachos/nachos-3.4/code/network/post.cc:221-246 | while mail is on its way to a machine, its poll or its postal worker can take a step that brings it one stage nearer to the mailboxes, of which there are finitely many |
| `PostOffices.InboxMatchesSignal` | nachos/nachos-3.4/code/network/post.cc:221-246 | in every state of every run, for every machine, messageAvailable matches the inbox's occupancy, the worker never takes from an empty inbox, and the mail it is about to deliver passes every assertion, the mailbox number included |
| `PostOffices.PollFindsRoom` | nachos/nachos-3.4/code/machine/network.cc:60-85 | a poll finds the inbox free, so no packet is overwritten before PostalDelivery takes it, and what it puts there is for this machine and of an allowed size |
| `PostOffices.WireRoundTrip` | nachos/nachos-3.4/code/network/post.cc:221-291 | the mail parsed by the receiver is the mail sent, byte for byte |
| `Paging.Machine.Execute` | nachos/nachos-3.4/code/machine/translate.cc:88-288 | for every sequence of loads and stores the results and final contents are those of a flat byte array, whatever faults and evictions occur, for any initial set of free frames |
| `Paging.Machine.Translate` | nachos/nachos-3.4/code/machine/translate.cc:187-288 | the page-table branch: which exception for which address, the frame of the page at the right offset, within memory as the bounds assertion says, dirty when writing |
| `Paging.Machine.HandlePageFault` | nachos/nachos-3.4/code/userprog/exception.cc:359-391 | demand paging with dirty write-back and eviction changes no byte of the address space and makes the page present |
| `Paging.FaultKeepsFlat` | nachos/nachos-3.4/code/userprog/exception.cc:359-391 | replacing a frame keeps the invariant (no page in two frames) and every byte of the address space |
| `Paging.Machine.FindFrame` | nachos/nachos-3.4/code/machine/machine.cc:237-250 | the first free frame is taken, or -1 when there is none |
| `Paging.Machine.ReadMem` | nachos/nachos-3.4/code/machine/translate.cc:88-123 | a successful read gives the bytes of the address space; a fault leaves the page present for the retry |
| `Paging.Machine.WriteMem` | nachos/nachos-3.4/code/machine/translate.cc:138-170 | a successful write replaces exactly its bytes of the address space |
| `Paging.Machine.constructor` | nachos/nachos-3.4/code/userprog/addrspace.cc:93-105 | the initial page table: no page present, the address space is the backing file |
| `Paging.LoadAfterStore` | nachos/nachos-3.4/code/machine/translate.cc:88-170 | a load of the size last stored at its address returns the word itself, the low sixteen bits of a short, or the low eight of a byte as a signed number |
| `Paging.ByteAfterStore` | nachos/nachos-3.4/code/machine/translate.cc:138-170 | after a store of any size the byte at addr + k is byte k of the value, low end first, and no byte outside the store has changed |
| `Paging.LoadMeans` | nachos/nachos-3.4/code/machine/translate.cc:88-123 | byte k of what a load returns is the byte at addr + k; a byte is read as signed, a short as unsigned |
| `Paging.FailsIff` | nachos/nachos-3.4/code/machine/translate.cc:187-236 | an access fails, with an address error and no change, exactly when it is misaligned or some byte of it lies outside the address space |
| `Tlb.Mmu.Reference` | nachos/nachos-3.4/code/userprog/exception.cc:392-437 | after any sequence of loads and stores the TLB holds exactly the four most recently used pages, and every access ends as the page table alone says |
| `Tlb.LruKeepsMostRecent` | nachos/nachos-3.4/code/userprog/exception.cc:392-437 | the LRU rule keeps exactly the most recently used pages, in order of last use |
| `Tlb.Mmu.Translate` | nachos/nachos-3.4/code/machine/translate.cc:238-265 | the TLB branch: a hit moves its page to the front of the recency order, a miss changes nothing but the miss count |
| `Tlb.PhysicalKeepsOffset` | nachos/nachos-3.4/code/machine/translate.cc:238-288 | the physical address has the page table's frame and the virtual address's offset, so that different addresses stay different where the table gives no two pages one frame |
| `Tlb.Mmu.Refill` | nachos/nachos-3.4/code/userprog/exception.cc:392-437 | a refill fills a free slot or replaces the least recently used page, and keeps valid pages distinct, in agreement with the page table and their counters ordered by recency |
| `Tlb.Mmu.Oldest` | nachos/nachos-3.4/code/userprog/exception.cc:421-429 | the victim search always finds a slot, the one with the largest counter |
| `Tlb.Mmu.Count` | nachos/nachos-3.4/code/machine/translate.cc:238-265 | the counter updates of a hit realise the move to the front |
| `Multiply.Mult` | nachos/nachos-3.4/code/machine/mipssim.cc:643-700 | hi:lo is the exact 64-bit signed or unsigned product for all 32-bit operands |
| `Multiply.MultWords` | nachos/nachos-3.4/code/machine/mipssim.cc:663-687 | the shift-and-add loop, with the arithmetic right shift of a and the early exit, multiplies the operands as unsigned words |
| `Multiply.Complement` | nachos/nachos-3.4/code/machine/mipssim.cc:689-696 | the two's complement of the double word |
| `Mips.RunOk` | nachos/nachos-3.4/code/machine/mipssim.cc:100-590 | in every run, with exceptions and interrupts, after each instruction register 0 is 0 and LoadReg is a general register; of the kernel only this is used, that it writes the result register and the program counters alone |
| `Mips.Cpu.Execute` | nachos/nachos-3.4/code/machine/mipssim.cc:100-573 | one instruction on the register array, MULT and MULTU through the shift-and-add loop, ends as its value-level step says, and so keeps register 0 and LoadReg |
| `Mips.Cpu.ApplyLoad` | nachos/nachos-3.4/code/machine/mipssim.cc:583-590 | the pending load reaches its register, the next one becomes pending, register 0 is zeroed |
| `Mips.Cpu.RaiseException` | nachos/nachos-3.4/code/machine/machine.cc:108-119 | the bad address is recorded and the pending load finished before the kernel runs |
| `Mips.Cpu.SetProduct` | nachos/nachos-3.4/code/machine/mipssim.cc:369-377 | the loop's result goes to HI and LO, the exact product |
| `Mips.ApplyOk` | nachos/nachos-3.4/code/machine/machine.cc:108-119 | one instruction or interrupt keeps that, also when it traps |
| `Mips.StopsIff` | nachos/nachos-3.4/code/machine/mipssim.cc:131-561 | an instruction stops the simulator if and only if it is LWL, LWR, SWL or SWR on an address that is no multiple of four; the default case is unreachable |
| `Mips.DecodeHandled` | nachos/nachos-3.4/code/machine/mipssim.cc:597-634 | every word decodes to an opcode that the switch handles |
| `Mips.DecodeFields` | nachos/nachos-3.4/code/machine/mipssim.cc:597-634 | for all fields, the word put together from them decodes to the same rs, rt and rd and to the operation its code, funct or rt selects |
| `Mips.DecodeExtra` | nachos/nachos-3.4/code/machine/mipssim.cc:597-634 | the extra of such a word is its sign-extended low half, its shift amount, or its low 26 bits, by format |
| `InstructionLaws.AssembledDecodes` | nachos/nachos-3.4/code/machine/mipssim.h:117-150 | every word that encodes an operation, by an encoding table written from the operations' side, decodes to that operation |
| `InstructionLaws.GatesByBits` | nachos/nachos-3.4/code/machine/mipssim.cc:161-551 | AND, XOR, NOR and the immediate forms work bit by bit, with a sixteen-bit immediate, and change no other register |
| `InstructionLaws.OrRightIff` | nachos/nachos-3.4/code/machine/mipssim.cc:383-385 | OR moves rs; that is the disjunction exactly when rt has no bit that rs lacks |
| `InstructionLaws.SumsMod32` | nachos/nachos-3.4/code/machine/mipssim.cc:153-477 | ADDU, ADDIU and SUBU give sum and difference modulo 2^32 |
| `InstructionLaws.SumsOrTrap` | nachos/nachos-3.4/code/machine/mipssim.cc:133-473 | ADD, ADDI and SUB give the exact sum or difference, and trap exactly when 32 bits do not hold it |
| `InstructionLaws.Comparisons` | nachos/nachos-3.4/code/machine/mipssim.cc:412-442 | SLT and SLTU disagree exactly on operands of different sign, and SLT is the sign of SUB wherever SUB does not trap |
| `InstructionLaws.ImmediateComparisons` | nachos/nachos-3.4/code/machine/mipssim.cc:419-433 | SLTI and SLTIU compare with the sign-extended immediate, as signed and as unsigned numbers |
| `InstructionLaws.ShiftsScale` | nachos/nachos-3.4/code/machine/mipssim.cc:403-463 | left shifts multiply modulo 2^32 and right shifts divide, rounding down |
| `InstructionLaws.SrlRightIff` | nachos/nachos-3.4/code/machine/mipssim.cc:453-463 | SRL and SRLV give the logical shift exactly for a number that is not negative or a shift by 0 |
| `InstructionLaws.DivisionMeans` | nachos/nachos-3.4/code/machine/mipssim.cc:203-225 | DIV and DIVU leave quotient and rest; for DIV that holds of every divisor but 0, exactly unless the least integer is divided by -1 |
| `InstructionLaws.ProductMeans` | nachos/nachos-3.4/code/machine/mipssim.cc:369-377 | MULT and MULTU leave the whole 64-bit product in HI and LO |
| `InstructionLaws.HiLoMoves` | nachos/nachos-3.4/code/machine/mipssim.cc:353-367 | what MTHI or MTLO stores is read back by MFHI or MFLO, and the other register is not touched |
| `InstructionLaws.ConstantBuilt` | nachos/nachos-3.4/code/machine/mipssim.cc:271-389 | LUI and then ORI on one register build every 32-bit word from its halves |
| `InstructionLaws.OppositeBranches` | nachos/nachos-3.4/code/machine/mipssim.cc:169-201 | of a conditional branch and its opposite exactly one is taken, on the condition in its name; the target is counted in words from the delay slot |
| `InstructionLaws.JumpLands` | nachos/nachos-3.4/code/machine/mipssim.cc:227-231 | a jump keeps the upper four bits of the address behind its delay slot and takes the rest from its target |
| `InstructionLaws.CallReturns` | nachos/nachos-3.4/code/machine/mipssim.cc:227-237 | JR on the link register goes behind the delay slot of the call, whatever ran in between |
| `InstructionLaws.JalrRightIff` | nachos/nachos-3.4/code/machine/mipssim.cc:233-237 | JALR goes where rs says exactly when rd is another register or rs holds the return address already |
| `InstructionLaws.DelaySlot` | nachos/nachos-3.4/code/machine/mipssim.cc:560-573 | the instruction behind a branch is executed and only then the target |
| `InstructionLaws.LoadsMean` | nachos/nachos-3.4/code/machine/mipssim.cc:239-351 | what each load leaves pending: sign- or zero-extended bytes and half words, words, and for LWR the top byte under the upper bytes of the register, a pending load of it included |
| `InstructionLaws.StoresMean` | nachos/nachos-3.4/code/machine/mipssim.cc:391-540 | stores hand the register to memory at rs plus the extra and trap exactly when memory refuses; SWR replaces the top byte of the word |
| `InstructionLaws.FaultsReport` | nachos/nachos-3.4/code/machine/machine.cc:109-119 | a load or store that traps enters the kernel with its address in BadVAddr, the pending load brought in and every other register as it was |
| `Mips.OverflowIff` | nachos/nachos-3.4/code/machine/mipssim.cc:133-151 | the sign-bit tests of ADD, ADDI and SUB find exactly the results that do not fit in 32 bits |
| `Mips.MultMatches` | nachos/nachos-3.4/code/machine/mipssim.cc:369-377 | what Mult computes is what MULT and MULTU leave in HI and LO |
| `Mips.LoadWaits` | nachos/nachos-3.4/code/machine/mipssim.cc:239-286 | a load leaves its register alone and makes the value pending |
| `Mips.LoadArrives` | nachos/nachos-3.4/code/machine/mipssim.cc:583-590 | after the next instruction the value is in the register, whatever that instruction does, also if it traps or writes the register; only a trap may put the kernel's result over it |
| `Lists.List.SortedInsert` | nachos/nachos-3.4/code/threads/list.cc:178-204 | the linked list becomes the sorted insertion of the item, behind equal keys |
| `Lists.List.SortedRemove` | nachos/nachos-3.4/code/threads/list.cc:219-239 | the first item and its key are removed, or nothing from an empty list |
| `Lists.List.Append` | nachos/nachos-3.4/code/threads/list.cc:76-88 | the item is added at the end with key 0 |
| `Lists.List.Prepend` | nachos/nachos-3.4/code/threads/list.cc:102-114 | the item is added at the front with key 0 |
| `Lists.List.IsEmpty` | nachos/nachos-3.4/code/threads/list.cc:154-161 | tells whether the list holds nothing |
| `Lists.HasPlace` | nachos/nachos-3.4/code/threads/list.cc:178-204 | insertion splices the item in behind every equal key and moves nothing else |
| `Lists.InsertKeeps` | nachos/nachos-3.4/code/threads/list.cc:178-204 | insertion loses nothing |
| `Lists.InsertSorted` | nachos/nachos-3.4/code/threads/list.cc:178-204 | insertion keeps a sorted list sorted |
| `Interrupts.FiresOnce` | nachos/nachos-3.4/code/machine/interrupt.cc:265-339 | in every run the interrupts fired and those pending are together exactly those scheduled, and none fires twice |
| `Interrupts.FiresOnTime` | nachos/nachos-3.4/code/machine/interrupt.cc:151-180 | in every run each interrupt fires no earlier than its time and at most ten ticks later, in order of due time, and totalTicks = idle + system + user |
| `Interrupts.FiresWhenAsked` | nachos/nachos-3.4/code/machine/interrupt.cc:266-281 | an interrupt asked for at time T fires no earlier than T + fromNow and at most one system tick later, with its argument and type, whatever the run does; once the clock is past that time it has fired |
| `Interrupts.TickCounts` | nachos/nachos-3.4/code/machine/interrupt.cc:152-182 | a tick in user mode adds one to the total and the user ticks, one in system mode ten to the total and the system ticks; whatever fires adds nothing |
| `Interrupts.RunCounts` | nachos/nachos-3.4/code/machine/interrupt.cc:152-182 | over every run the user counter grows by the ticks taken in user mode and the system counter by ten times those taken in system mode |
| `Interrupts.IdleCounts` | nachos/nachos-3.4/code/machine/interrupt.cc:212-235 | Idle adds to the idle ticks alone, and exactly the time it skips to the first pending interrupt |
| `Interrupts.TickInv` | nachos/nachos-3.4/code/machine/interrupt.cc:151-180 | OneTick's loop ends with nothing due, and keeps the queue sorted and the tick counters balanced |
| `Interrupts.IdleInv` | nachos/nachos-3.4/code/machine/interrupt.cc:211-235 | Idle halts if and only if nothing or one timer interrupt is pending; otherwise it leaves something due if and only if all that is pending is due when the first is, a timer interrupt is the last of them, and the handlers of the others schedule nothing |
| `Interrupts.IdleLeavesTimer` | nachos/nachos-3.4/code/machine/interrupt.cc:211-235 | a run from start-up after which Idle has returned with a due timer interrupt still pending |
| `Interrupts.TiesSwap` | nachos/nachos-3.4/code/machine/interrupt.cc:312-315 | a run from start-up in which, of two interrupts scheduled for the same time, the second fires first |
| `Interrupts.TickKeepsOrderIff` | nachos/nachos-3.4/code/machine/interrupt.cc:312-315 | a tick for which nothing is due keeps the order of the queue if and only if the first two interrupts have different times |
| `Interrupts.DrainLeavesIff` | nachos/nachos-3.4/code/machine/interrupt.cc:216-219 | the loop of Idle leaves something due exactly under that condition |
| `Interrupts.DrainYields` | nachos/nachos-3.4/code/machine/interrupt.cc:166-179 | the yield flag is set after the loop if and only if it was before or a handler that ran asked for it |
| `Interrupts.RunInv` | nachos/nachos-3.4/code/machine/interrupt.cc:265-339 | every run keeps the queue sorted, nothing overdue, and the history complete |
| `Interrupts.Controller.CheckIfDue` | nachos/nachos-3.4/code/machine/interrupt.cc:293-339 | fires the first due interrupt, or puts it back, as the value-level step says |
| `Interrupts.Controller.CheckAll` | nachos/nachos-3.4/code/machine/interrupt.cc:170-171 | the loop terminates and equals draining the due interrupts |
| `Interrupts.Controller.OneTick` | nachos/nachos-3.4/code/machine/interrupt.cc:151-180 | the clock advances by the mode's tick and the due interrupts are drained; the caller is told to yield if and only if the flag was set or a handler that ran asked for it |
| `Interrupts.Controller.DoIdle` | nachos/nachos-3.4/code/machine/interrupt.cc:211-235 | Idle on the objects equals its value-level step |
| `Interrupts.Controller.DoSetLevel` | nachos/nachos-3.4/code/machine/interrupt.cc:115-128 | enabling interrupts runs OneTick and passes on its request to yield, nothing else does |
| `Interrupts.Controller.Add` | nachos/nachos-3.4/code/machine/interrupt.cc:265-278 | Schedule puts the new interrupt on the sorted list |
| `DiskTiming.EveryRequestServed` | nachos/nachos-3.4/code/machine/disk.cc:115-275 | in every run of requests each is served, before it is reported done, by a whole pass of the head over its sector while the head is on its track, and takes at least RotationTime |
| `DiskTiming.FirstPass` | nachos/nachos-3.4/code/machine/disk.cc:182-257 | without a track-buffer hit the request ends when the head has just passed the sector, in the first pass that starts no earlier than the end of the seek |
| `DiskTiming.BufferHitIff` | nachos/nachos-3.4/code/machine/disk.cc:239-250 | a read hits the track buffer if and only if the head is on the track and has passed the whole sector since it came there |
| `DiskTiming.LatencyAtLeast` | nachos/nachos-3.4/code/machine/disk.cc:234-257 | the interrupt is at least one sector time away, and exactly one on a track-buffer hit |
| `DiskTiming.SeekPerTrack` | nachos/nachos-3.4/code/machine/disk.cc:183-199 | the seek takes no time on the head's own track and one seek time more for each track further away |
| `DiskTiming.NextBoundary` | nachos/nachos-3.4/code/machine/disk.cc:182-198 | seek plus rotation leads to the first sector boundary after the seek |
| `DiskTiming.SlotsToWait` | nachos/nachos-3.4/code/machine/disk.cc:206-213 | ModuloDiff is the number of sector times until the sector comes round, and no smaller number is |
| `Bitmaps.BitMap.Mark` | nachos/nachos-3.4/code/userprog/bitmap.cc:46-51 | sets one bit of the word array and no other |
| `Bitmaps.BitMap.Clear` | nachos/nachos-3.4/code/userprog/bitmap.cc:60-65 | clears one bit and no other |
| `Bitmaps.BitMap.Test` | nachos/nachos-3.4/code/userprog/bitmap.cc:74-83 | tells the bit |
| `Bitmaps.BitMap.Find` | nachos/nachos-3.4/code/userprog/bitmap.cc:94-103 | marks and returns the first clear bit, or -1 |
| `Bitmaps.BitMap.NumClear` | nachos/nachos-3.4/code/userprog/bitmap.cc:111-119 | counts the clear bits |
| `Bitmaps.BitMap.MyFind` | nachos/nachos-3.4/code/userprog/bitmap.cc:168-182 | marks and returns the first run of clear bits, or reports none, or aborts by testing past the end |
| `Bitmaps.BitMap.constructor` | nachos/nachos-3.4/code/userprog/bitmap.cc:20-27 | all bits clear |
| `Bitmaps.SearchRunMeans` | nachos/nachos-3.4/code/userprog/bitmap.cc:168-182 | myFind finds the first run, and aborts if and only if it looks for two or more bits and there is no run |
| `Bitmaps.PutGetBit` | nachos/nachos-3.4/code/userprog/bitmap.cc:46-65 | writing one bit of a word changes that bit only |
| `FileHeaders.AllocateSmallTakes` | nachos/nachos-3.4/code/filesys/filehdr.cc:43-61 | fewer than nine sectors: exactly n fresh distinct sectors are marked, consecutive ones; it fails if and only if too few are clear, and aborts if and only if enough are clear but not in a run; then the map is unchanged |
| `FileHeaders.AllocateLargeTakes` | nachos/nachos-3.4/code/filesys/filehdr.cc:62-72 | 9 to 40 sectors: n + 1 fresh distinct sectors are marked if that many are clear; with only n clear the last index entry is -1 |
| `FileHeaders.ByteToSectorRightIff` | nachos/nachos-3.4/code/filesys/filehdr.cc:139-151 | for every allocation of 9 to 40 sectors the space check lets through, ByteToSector gives the allocated sectors, all on the disk, if and only if n + 1 sectors were clear among the first 128 |
| `FileHeaders.AllocateDeallocateSmall` | nachos/nachos-3.4/code/filesys/filehdr.cc:82-101 | Deallocate after Allocate restores the map |
| `FileHeaders.AllocateDeallocateLargeIff` | nachos/nachos-3.4/code/filesys/filehdr.cc:82-101 | for every such allocation Deallocate restores the map if and only if n + 1 sectors were clear among the first 128 |
| `FileHeaders.ExtendRightIff` | nachos/nachos-3.4/code/filesys/filehdr.cc:262-279 | Extend leaves a file in good order, with old blocks kept and the new ones fresh, if and only if no sector is needed or the file stays below nine sectors and enough are clear |
| `FileHeaders.FindsTake` | nachos/nachos-3.4/code/filesys/filehdr.cc:57-69 | n successive Finds take n distinct clear sectors |
| `FileHeaders.FindsBelow` | nachos/nachos-3.4/code/filesys/filehdr.cc:63-69 | they are all below a limit if and only if n sectors are clear below it |
| `FileHeaders.LargeFileOk` | nachos/nachos-3.4/code/filesys/filehdr.cc:62-72 | with n + 1 sectors clear among the first 128, ByteToSector is injective over a large file's blocks, apart from its index block and header |
| `FileHeaders.RoundsUp` | nachos/nachos-3.4/code/threads/utility.h:40-40 | a file gets the least number of sectors that hold its bytes |
| `HeaderCode.FileHeader.Allocate` | nachos/nachos-3.4/code/filesys/filehdr.cc:43-73 | the code's header, map and index block are those of the value-level allocation |
| `HeaderCode.FileHeader.Deallocate` | nachos/nachos-3.4/code/filesys/filehdr.cc:82-101 | the code's map is that of the value-level deallocation, aborts included |
| `HeaderCode.FileHeader.ByteToSector` | nachos/nachos-3.4/code/filesys/filehdr.cc:139-151 | the block of an offset, directly or through one signed byte of the index block |
| `HeaderCode.FileHeader.Extend` | nachos/nachos-3.4/code/filesys/filehdr.cc:262-279 | the code's header and map are those of the value-level extension, lengths changed even on failure |
| `Bytes.LowByteIff` | nachos/nachos-3.4/code/filesys/filehdr.cc:95-95 | a sector number survives being read back as one signed byte if and only if it is below 128 |
| `OpenFiles.OpenFile.Perform` | nachos/nachos-3.4/code/filesys/openfile.cc:129-222 | any run of reads and writes within eight sectors, with room for them, answers and ends as on a plain byte sequence |
| `OpenFiles.OpenFile.WriteAt` | nachos/nachos-3.4/code/filesys/openfile.cc:168-222 | a write at position <= length replaces exactly its range and sets the length to the maximum; no sector in use by anything else changes; the header sector holds the new header |
| `OpenFiles.OpenFile.ReadAt` | nachos/nachos-3.4/code/filesys/openfile.cc:129-166 | returns the bytes from the position on, up to the length; only the time stamp in the header's sector changes |
| `OpenFiles.OpenFile.FillBuffer` | nachos/nachos-3.4/code/filesys/openfile.cc:194-211 | partially written first and last sectors keep the file's bytes around the new ones |
| `OpenFiles.OpenFile.Read` | nachos/nachos-3.4/code/filesys/openfile.cc:78-87 | reads at the seek position and advances it |
| `OpenFiles.OpenFile.Write` | nachos/nachos-3.4/code/filesys/openfile.cc:89-101 | writes at the seek position and advances it |
| `OpenFiles.OpenFile.constructor` | nachos/nachos-3.4/code/filesys/openfile.cc:30-38 | the header is fetched from its sector, the seek position is 0 |
| `OpenFiles.ReadAfterWrite` | nachos/nachos-3.4/code/filesys/openfile.cc:129-222 | what was written is read back, every other byte is unchanged, the length is the maximum |
| `OpenFiles.OtherFile` | nachos/nachos-3.4/code/filesys/openfile.cc:168-222 | a file that shares no sector with what changed keeps its bytes and its header |
| `OpenFiles.HeaderRoundTrip` | nachos/nachos-3.4/code/filesys/filehdr.cc:110-127 | a header written to its sector is read back unchanged |
| `OpenFiles.WrittenContent` | nachos/nachos-3.4/code/filesys/openfile.cc:213-216 | writing the filled buffer over the range's sectors changes exactly the range |
| `Directories.FindAfterAdd` | nachos/nachos-3.4/code/filesys/directory.cc:193-209 | a name that is added is found at its sector and with its kind; other names are found where they were; no two entries share a name |
| `Directories.SameKeyIff` | nachos/nachos-3.4/code/filesys/directory.cc:152-157 | two names are one to the directory exactly when they agree on their first twenty characters, so different names of at most twenty are kept apart |
| `Directories.FindAfterRemove` | nachos/nachos-3.4/code/filesys/directory.cc:219-228 | a name removed is found no more, every other name where it was |
| `Directories.AddRemove` | nachos/nachos-3.4/code/filesys/directory.cc:193-228 | Add and then Remove changes only the entry that was unused |
| `Directories.Directory.FindIndex` | nachos/nachos-3.4/code/filesys/directory.cc:153-161 | the first entry in use with the name, compared on twenty characters |
| `Directories.Directory.AddEntry` | nachos/nachos-3.4/code/filesys/directory.cc:193-209 | fails if and only if the name is there or the table is full |
| `Directories.Directory.RemoveEntry` | nachos/nachos-3.4/code/filesys/directory.cc:219-228 | frees the entry, or fails when the name is not there |
| `FileSystems.RunConserves` | nachos/nachos-3.4/code/filesys/filesys.cc:182-423 | at every point of every run of Create, Remove, Open, Close, reads and extending writes from a formatted disk, with any number of handles on a file, the marked sectors are exactly, and disjointly, the system sectors and each file's header and data sectors; a handle in use must name the sectors the file has, and a growing write have room |
| `FileSystems.WriteKeepsOthers` | nachos/nachos-3.4/code/filesys/openfile.cc:168-222 | a write through one handle changes no other file's bytes |
| `FileSystems.NextInv` | nachos/nachos-3.4/code/filesys/filesys.cc:182-423 | every step keeps the volume conserved and every handle on a file that is still there |
| `FileSystems.OpensNamed` | nachos/nachos-3.4/code/filesys/filesys.cc:318-369 | Open takes over the header of the file of that name, and opens nothing exactly when no file has it |
| `FileSystems.CreateOpen` | nachos/nachos-3.4/code/filesys/filesys.cc:182-369 | a file that was created is opened by its name, with the size asked for and on sectors none of which was in use |
| `FileSystems.DeleteOpen` | nachos/nachos-3.4/code/filesys/filesys.cc:385-423 | a file that was removed is not found any more, and every other name is found as before |
| `FileSystems.ReadsInvIff` | nachos/nachos-3.4/code/filesys/openfile.cc:162-163 | a read keeps the system in good order if and only if its handle names the sectors the file has |
| `FileSystems.SecondHandleBreaks` | nachos/nachos-3.4/code/filesys/openfile.cc:162-163 | a file opened twice that gets new sectors through one handle: reading through the other loses them |
| `FileSystems.SecondHandleRun` | nachos/nachos-3.4/code/filesys/openfile.cc:162-163 | a run from a formatted disk that gets there: create, open twice, write one byte, read |
| `Volumes.CreateFails` | nachos/nachos-3.4/code/filesys/filesys.cc:226-300 | Create refuses, with map, directory and disk unchanged, if and only if the name is taken, the directory full or too few sectors clear; it aborts, unchanged too, if and only if there is space but no run |
| `Volumes.CreateInv` | nachos/nachos-3.4/code/filesys/filesys.cc:226-300 | Create takes exactly the new file's sectors and leaves every other file and entry alone |
| `Volumes.DeleteInv` | nachos/nachos-3.4/code/filesys/filesys.cc:385-423 | Remove fails no assertion, frees exactly the file's sectors, and succeeds if and only if the name is there and the file not open |
| `Volumes.CreateDelete` | nachos/nachos-3.4/code/filesys/filesys.cc:182-423 | Create and then Remove restores the map and every entry but the one that was unused |
| `Volumes.WriteInv` | nachos/nachos-3.4/code/filesys/openfile.cc:168-222 | a write that needs no new sector, or can get what it needs, through a handle that names the file's sectors, keeps the volume conserved |
| `Volumes.WriteConservesIff` | nachos/nachos-3.4/code/filesys/openfile.cc:168-222 | after a whole write that makes the file longer, whatever sectors a failed extension made it write to, the volume is in good order if and only if no new sector was needed, or the file stays within eight and enough were clear; nine sectors or more are outside the invariant's own bound, and FileHeaders.ExtendRightIff is the result about them |
| `Volumes.StaleHandleBreaks` | nachos/nachos-3.4/code/filesys/openfile.cc:162-163 | after a file has got new sectors through one handle, putting back the old header of another breaks the volume |
| `Volumes.RewriteConservesIff` | nachos/nachos-3.4/code/filesys/openfile.cc:162-163 | putting a handle's header back on the disk keeps the volume in order if and only if it names the sectors the disk's header names |
| `Volumes.OthersKeepBytes` | nachos/nachos-3.4/code/filesys/filesys.cc:182-423 | when only free sectors and one file's change, every other file keeps its bytes |
| `Volumes.AllocateAfterPrefix` | nachos/nachos-3.4/code/filesys/filesys.cc:94-103 | on a disk being formatted a file's sectors follow those taken, so both assertions hold |
| `FileSystemCode.FileSystem.constructor` | nachos/nachos-3.4/code/filesys/filesys.cc:83-144 | formatting leaves sectors 0 to 5 marked and a directory with only . and .. |
| `FileSystemCode.FileSystem.Create` | nachos/nachos-3.4/code/filesys/filesys.cc:182-307 | the objects end as the value-level Create says, and the volume stays in good order |
| `FileSystemCode.FileSystem.Remove` | nachos/nachos-3.4/code/filesys/filesys.cc:385-423 | the objects end as the value-level Remove says; no assertion fails |
| `FileSystemCode.FileSystem.Write` | nachos/nachos-3.4/code/filesys/openfile.cc:168-222 | a write through an up-to-date handle replaces exactly its range, keeps the volume conserved and every other file's bytes |

## Left out

- Host wrappers, console, sockets, command line, test drivers, `code/bin` and `SWITCH`: input, output and foreign code. A context switch is one atomic change of the current thread.
- Directory creation and nested paths: names have no `/`. `Create` opens a new directory's header before writing it, and nested lookups use an index in the wrong table.
- Pipes, messages between threads, and the system calls for files and processes: string copying and printing.
- Several address spaces at once: the code shares one frame map and one backing file among them. The model has one address space and any initial set of free frames.
- `Paging`: the backing file is a byte array, not a file of the file system.
- `Tlb`: counters are unbounded, so the overflow of a counter that is never reset after 2^31 references is not captured.
- `Semaphores`, `SynchLists`, `ReadersWriters`, `SynchDisk`, `PostOffices`: the shared objects are one value that each step replaces; aliasing between objects is not captured.
- `SharedDisk`: joins the operations of SynchDisk to those of the file system's disk one by one; file operations of different threads are not interleaved on it.
- `Volumes` and `FileSystems`: files of at most eight sectors. Files of 9 to 40 sectors are covered in `FileHeaders` and in `OpenFiles.OpenFile.ReadAt` and `WriteAt`, not in the conservation theorem.
- `FileSystems`: operations of different threads do not interleave, as filesys.cc assumes; opening `.` or `..` is not modelled.
- File types and time stamps: 80 bytes that change in no particular way.
- OpenFiles.OpenFile.WriteAt: states nothing when the extension fails, because the code then writes to sectors it does not own; `FileHeaders.ExtendRightIff` and `Volumes.WriteConservesIff` say when that is.
- FileSystemCode.FileSystem.Write: states nothing in that case either.
- OpenFiles.OpenFile.ReadAt: a read at 0 of an empty file goes to the sector its unset first slot names, which must be on the disk, as the disk's own assertion says.
- OpenFiles.OpenFile.Read: the calls of ReaderIn and ReaderOut and the Yield, which `ReadersWriters` covers, are not part of it.
- OpenFiles.OpenFile.Write: the same for WriteBegin and WriteDone.
- OpenFiles.OpenFile.constructor: does not count vis_num; `FileSystems.OpenSectors` and `FileSystemCode` keep the open files.
- FileSystemCode.FileSystem.constructor: writes the headers of the map and of the directory but not the bytes of these two files.
- FileSystemCode.FileSystem.Create: the contents of the map's file and of the directory's file are fields beside the disk.
- FileSystemCode.FileSystem.Remove: the same.
- Threads.Scheduler.Sleep: the idle loop is a state that a later step leaves when a thread is ready; the interrupts it waits for are in `Interrupts`.
- `Interrupts`: handlers are one function of a device state, the interrupt and the time; a handler that enables interrupts is stopped by an assertion in the code and is not modelled. The yield after a tick is a result of `OneTick`.
- `PostOffices`: the handshake between a sender and its network's send-done interrupt.
- `Bitmaps`: a word is a number and its bits are its binary digits; that it stays below 2^32 is not stated.
- `DiskTiming`: the data of the requests, which `SynchDisk` covers.
- `Mips`: memory and the kernel answer as parameters. Of the kernel's exception handler it is taken that it writes only register 2 and the program counters, which is what userprog/exception.cc does to the running thread. Apart from multiplication the cases of the switch are functions of the register values.
- InstructionLaws.DivisionMeans: the least integer divided by -1, which C leaves undefined, wraps around in the model; the host may stop instead.
- `InstructionLaws`: BGEZAL and BLTZAL on register 31, which the code links before it tests, are covered by `OppositeBranches` without naming the condition.
- `Threads`: the message counters and thread-count limit.
- Broadcast, the reader/writer lock of threads/synch.cc, `Mapcar` and the Print routines: easy members only.
