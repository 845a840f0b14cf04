# Verified models of a bare-metal course OS

These modules model the parts of the OS whose correctness is least obvious from reading one
function, and prove what those parts are for.

* **Equivalence threads** (`Cpu`, `MiniStep`, `EquivSpec`, `EquivProofs`, `EquivTheorems`,
  `EquivThreads`, `EquivCheck`, `EquivClient`). Every user instruction traps; the handler saves the
  registers, folds them into the thread's hash and switches to the next thread; at exit the hash
  must be the one of a solo run. The processor is an arbitrary deterministic step on a thread's
  registers and private memory, with one mismatch register that makes a user fetch fault exactly
  when its pc differs; the hash is an arbitrary fold. `EquivSpec` says what happens as two state
  machines: one thread alone, and the whole system with the next thread chosen arbitrarily.
  `EquivThreads` is the kernel itself, with its globals, thread objects, run queue and breakpoint
  registers, and is proved to take the steps of the second machine with the choice the real
  scheduler makes. `EquivClient` is the way it is used: every thread runs alone first to learn its
  hash, and then they are refreshed and run together.
* **Queues** (`IntrusiveQueue`, `Ring`, `Circular`, `CircularConcurrent`, `CircularAnswers`). The intrusive linked
  queue as heap objects; the circular buffer as an object used from one side, and again cut into
  micro-steps with a producer and a consumer interleaving in any order.
* **Radio receive path** (`Radio`, `Nrf`, `Timeout`). Packets land in the device's FIFO between any
  two reads of its status register, the driver drains them into the circular queue, readers take
  them out; and the wrap-around timer that bounds a waiting read.
* **CRC-32 and random numbers** (`CrcBits`, `Crc`, `CrcResidue`, `Random`, `RandomSeed`). The table-driven loop against
  bit-serial division as in section 8 of RFC 1952; the two-pointer in-place table against the
  additive-feedback number stream.
* **Page tables** (`MemAttr`, `PageTable`, `Section`, `SuperSection`, `ProcMap`, `KernelMap`).
  First-level descriptors of 1MB sections and 16MB supersections (section B4.7 of the ARM
  Architecture Reference Manual, DDI 0100) against the list of mappings they were made from.
  `PageTable` is about both sizes; the two versions of the routines are `Section` and
  `SuperSection`.
* **Shutdown matcher** (`PiCat`). The matcher that keeps its position across reads.

`Words` holds the 32-bit words that all of them share. Arithmetic that wraps in C wraps here.
State that C updates in place is a class or an array with methods; their postconditions name the
whole new state through functions about which the lemmas are proved.

Some properties that a reader of the code or of its comments might expect hold only under a
condition. Each of these is proved as an equivalence:

* The step handler misses nothing if and only if the code does not start at address 0
  (`MiniStep.NothingMissedIff`, `MiniStep.Debug.MiniStepRun`).
* `mini_step_run` starts `fn(arg)` if and only if `arg` is 0, as it never passes it on, and returns
  "what the user set" in r0 if and only if that is 0, as it returns r0 of the block it started from
  (`MiniStep.Debug.MiniStepRun`).
* A stream that was in use when `initstate_r` set up another comes back with `setstate_r` if and
  only if it has no table or a multiple of its degree was drawn since its tag was written, as
  `initstate_r` does not save the current state first although its comment says so
  (`Random.TwoStreams`, `Random.InitstateAndBack`; `Random.OneDrawIsLost` is the failing case).
* `setstate_r` leaves both pointers in the table if and only if the rear index in the tag is below
  the degree, which it does not check (`Random.RandomData.SetstateR`).
* `cq_nelem` counts right if and only if the capacity divides 2^32 (`Ring.NelemRightIffDivides`).
* `vm_xlate` gives "the corresponding physical address" if and only if the address is the base of
  its section (`PageTable.TranslationIsLastMapping`).
* A permission survives `vm_map_sec` if and only if it does not set bit 1, user access, as the mask
  is `0x11` and not `0b11` (`MemAttr.PermSurvives`).
* The kernel's page table agrees with its region list if and only if no region is the top megabyte
  (`KernelMap.KernelAgreesWithList`), and in the 16MB form only when there is no region at all
  (`KernelMap.SuperKernelMapsMore`). The 16MB form still takes the list of 1MB regions and panics
  on the default one (`KernelMap.DefaultList`).
* The shutdown string is seen if and only if an even number of unfinished copies of it stand right
  before it, as `pi_done` checks "the remainder" without the character that did not fit
  (`PiCat.FoundIff`; `PiCat.MissesDoubledD` is a failing case).
* The elapsed time is right if and only if no two polls are a counter period apart
  (`Timeout.TimeoutT.GetUsec`), which the comment in the header asks for.

## Model

| member | source | states |
|---|---|---|
| MiniStep.SteppingIsTransparent | labs/14-ss-equiv-deux/code/mini-step.c:98-126 | for every program, terminating or not, and any number of faults and instructions, what was executed under stepping is an unstepped run from the same start, and the handler was given its pcs in order with consecutive repeats collapsed, never ss_on_exit |
| MiniStep.FinishesIffExits | labs/14-ss-equiv-deux/code/mini-step.c:98-106 | a stepped run finishes if and only if the unstepped code reaches ss_on_exit, and then through the same contexts |
| MiniStep.Progress | labs/14-ss-equiv-deux/code/mini-step.c:98-126 | until it finishes the stepped run stays inside the unstepped one and spends at most two events on each instruction |
| MiniStep.CollapseHasNoRepeats | labs/14-ss-equiv-deux/code/mini-step.c:115-116 | the handler never gets the same pc twice running |
| MiniStep.NothingMissedIff | labs/14-ss-equiv-deux/code/mini-step.c:58-68 | at any moment of any stepped run, with the mismatch register starting at 0, the handler was given every executed pc, repeats collapsed, if and only if the start is not address 0 |
| MiniStep.FinishedRun | labs/14-ss-equiv-deux/code/mini-step.c:98-106 | a finished stepped run ends in the last context of the unstepped one, its log is the collapsed pcs before ss_on_exit, and that misses nothing if and only if the start is not address 0 |
| MiniStep.Debug.MismatchPcSet | labs/14-ss-equiv-deux/code/mini-step.c:25-56 | whatever the register held, a user fetch now faults if and only if its pc differs from the new one; returns the old pc and leaves every other bit of the control register alone |
| MiniStep.ArmedFields | labs/14-ss-equiv-deux/code/mini-step.c:34-43 | the masks set the enable bit, both modes, all four bytes, either world and an unlinked address mismatch, and keep all other bits |
| MiniStep.Debug.MismatchOn | labs/14-ss-equiv-deux/code/mini-step.c:58-68 | from off to on with the register armed at 0 |
| MiniStep.Debug.MismatchOff | labs/14-ss-equiv-deux/code/mini-step.c:70-80 | clears the enable bit and nothing else |
| MiniStep.Debug.MiniStepRun | labs/14-ss-equiv-deux/code/mini-step.c:146-184 | code that exits when unstepped ends in the same registers and memory; the handler has its pcs with repeats collapsed, all of them if and only if fn is not 0; stepping is off again; the start is that of fn(arg) if and only if arg is 0; the result is 0, which is the final r0 if and only if that is 0 |
| EquivProofs.RunKeepsCensus | labs/14-ss-equiv-deux/code/equiv-threads.c:45-142 | no run loses, duplicates or invents a thread: current, queued and exited threads together are always the same multiset |
| EquivProofs.StepIsSoloStep | labs/14-ss-equiv-deux/code/equiv-threads.c:92-142 | one event moves the current thread exactly one step of its solo run and no other thread at all |
| EquivProofs.NonInterference | labs/14-ss-equiv-deux/code/equiv-threads.c:45-234 | for any threads, hash, queue order and scheduler choices, a thread that got n of the events has the registers, memory, hashed snapshots, hash, count, output and verdict of n events of its solo run |
| EquivProofs.NothingElseHeld | labs/14-ss-equiv-deux/code/equiv-threads.c:45-142 | conversely everything the system holds after a run is one of the starting threads advanced by its own solo events |
| EquivProofs.RunStops | labs/14-ss-equiv-deux/code/equiv-threads.c:222-234 | if every solo run stops, so does every interleaving, after no more events than the solo runs have together |
| EquivTheorems.ExpectedOnlyDecidesExit | labs/14-ss-equiv-deux/code/equiv-threads.c:109-122 | an expected hash changes nothing before exit and there only decides between the same exit and the mismatch panic |
| EquivTheorems.HashCheckIsExact | labs/14-ss-equiv-deux/code/equiv-threads.c:105-135 | for threads that exit alone, every run that is over ended either with all threads exited or in the mismatch panic, and in the former if and only if every expected hash is unset or is that of the solo run |
| EquivTheorems.EveryRunEnds | labs/14-ss-equiv-deux/code/equiv-threads.c:222-234 | and every run is over after at most as many events as the solo runs together, whatever the choices |
| EquivTheorems.FinishedMeansExited | labs/14-ss-equiv-deux/code/equiv-threads.c:124-131 | in a run that finished, every thread is among the exited ones exactly as its solo run leaves it |
| EquivTheorems.OutputIsSoloOutput | labs/14-ss-equiv-deux/code/equiv-threads.c:102-104 | each thread's part of the mixed output stream is what it prints alone |
| EquivTheorems.HashIsFold | labs/14-ss-equiv-deux/code/equiv-threads.c:201-220 | the hash is the fold of the register blocks taken so far and the instruction count their number modulo 2^32 |
| EquivTheorems.StretchSnapshots | labs/14-ss-equiv-deux/code/equiv-threads.c:201-220 | over code without system calls a thread executes the unstepped run, and its hash takes in the registers at every change of pc but not at the first instruction |
| EquivTheorems.PutcRestarts | labs/14-ss-equiv-deux/code/equiv-threads.c:101-104 | a putc prints one byte, is not hashed, and leaves the thread like one newly switched to, so the instruction after it is not hashed either |
| EquivTheorems.ExitExits | labs/14-ss-equiv-deux/code/equiv-threads.c:105-135 | call 0, whatever the exit code in r1, exits if and only if no hash is expected or the computed one is, with the final registers, everything else the thread did, and its own hash expected from then on; otherwise it is the mismatch panic |
| EquivTheorems.CallPanics | labs/14-ss-equiv-deux/code/equiv-threads.c:79-101 | a system call panics for its stack if and only if sp is below or above it, and for its number if and only if sp is inside and the number is neither 0 nor 1 |
| EquivTheorems.InstructionRuns | labs/14-ss-equiv-deux/code/equiv-threads.c:200-220 | at the mismatch register an instruction just runs, and any exception but swi is a panic |
| EquivTheorems.FaultIsHashed | labs/14-ss-equiv-deux/code/equiv-threads.c:200-220 | elsewhere the registers are folded into the hash and counted, the pc becomes the thread's own mismatch, nothing else changes; at ss_on_exit it leaves the scheduler instead |
| EquivTheorems.RefreshedStarts | labs/14-ss-equiv-deux/code/equiv-threads.c:144-158 | a forked or refreshed thread has its argument in r0, entry in pc, stack end in sp, the exit stub in lr, 0 in r1 to r12, nothing hashed, counted or printed, and keeps its identity and expected hash |
| EquivTheorems.ServedInOrder | labs/14-ss-equiv-deux/code/equiv-threads.c:45-64 | the next switches go to the members of the run queue one after another, whatever the threads do meanwhile |
| EquivTheorems.RoundRobin | labs/14-ss-equiv-deux/code/equiv-threads.c:45-64 | after a thread gives up the processor each member of the queue is switched to exactly once, in order, before it runs again |
| EquivThreads.Kernel.Schedule | labs/14-ss-equiv-deux/code/equiv-threads.c:45-64 | current thread followed by queue is rotated by one, the processor holds the new thread's registers and the mismatch register its pc |
| EquivThreads.Kernel.PrefetchAbort | labs/14-ss-equiv-deux/code/equiv-threads.c:200-220 | the fault handler, on the shared run queue and thread objects, makes the system step of a fault |
| EquivThreads.Kernel.SyscallHandler | labs/14-ss-equiv-deux/code/equiv-threads.c:90-142 | the system call handler makes the system step of the trap: putc, exit with its hash check, or one of the panics |
| EquivThreads.Kernel.ExitCall | labs/14-ss-equiv-deux/code/equiv-threads.c:105-135 | whatever the exit code: if no hash is expected or the right one, the thread is the next exited one and expects its own hash, and the head of the queue is current or, with none, the run is over; if not, the mismatch panic with current thread and queue as they were |
| EquivThreads.Kernel.UserEvent | labs/14-ss-equiv-deux/code/equiv-threads.c:90-142 | whatever happens next in user mode, the kernel's new state is the system step with the head of the queue as choice, and all thread objects stay the same objects |
| EquivThreads.Kernel.EquivRun | labs/14-ss-equiv-deux/code/equiv-threads.c:222-234 | panics if and only if the queue is empty; otherwise runs the system machine to its end, touching no thread but the queued ones, and when all threads exited the queue is empty and stepping is off |
| EquivThreads.Kernel.Fork | labs/14-ss-equiv-deux/code/equiv-threads.c:160-183 | a new thread object at the head of the queue with the next tid, fresh registers, its own stack, and a stack pointer that passes the check |
| EquivThreads.Kernel.ForkNostack | labs/14-ss-equiv-deux/code/equiv-threads.c:184-189 | the same with a stack of no bytes at address 0 |
| EquivThreads.Kernel.Refresh | labs/14-ss-equiv-deux/code/equiv-threads.c:191-198 | any thread not on the queue gets registers, hash and count as when forked, keeps its expected hash, and goes to the head of the queue |
| EquivCheck.CalibratedThreadExpectsItsHash | labs/14-ss-equiv-deux/code/equiv-threads.c:109-122 | a fresh thread without expected hash that runs alone to its exit and is then refreshed is the fresh thread again, now expecting exactly its solo hash |
| EquivCheck.CheckedRun | labs/14-ss-equiv-deux/code/equiv-threads.c:222-234 | equiv_run on thread objects returns, with queue empty, stepping off, every queued object as its solo run leaves it and no other object touched, if and only if every expected hash is unset or right; otherwise it stops at the mismatch panic |
| EquivClient.CalibratedRunsMatch | labs/14-ss-equiv-deux/code/equiv-threads.c:105-135 | no false alarm: threads calibrated alone and refreshed, in any queue order and under any scheduler choices, reach no panic and all exit as they do alone, after at most the events of their solo runs |
| EquivClient.RunSingle | labs/14-ss-equiv-deux/code/10-equiv-test.c:25-39 | a thread forked without expected hash, run alone and then refreshed and run again any number of times, always comes back and ends as its solo run |
| EquivClient.RefreshAll | labs/14-ss-equiv-deux/code/10-equiv-test.c:52-54 | threads that ran alone stand on the run queue in the order chosen, each the fresh thread again but expecting its solo hash |
| EquivClient.RunTogether | labs/14-ss-equiv-deux/code/10-equiv-test.c:52-55 | refreshing threads that ran alone, in any order, and running them together comes back with each as its solo run leaves it, ready for another round |
| EquivClient.EquivTest | labs/14-ss-equiv-deux/code/10-equiv-test.c:41-68 | from an idle kernel, any programs that exit are forked, calibrated alone and then any selection of them is run together in any order any number of times, without a mismatch or any other panic |
| IntrusiveQueue.Queue.Empty | libpi/libc/Q.h:18-24 | true if and only if no node is queued, and neither assertion inside can fail |
| IntrusiveQueue.Queue.Pop | libpi/libc/Q.h:26-40 | returns and removes the first node of the sequence, or null from an empty queue, keeping head, tail, count and links right |
| IntrusiveQueue.Queue.Append | libpi/libc/queue-ext-T.h:42-51 | the node becomes the last of the sequence |
| IntrusiveQueue.Queue.Push | libpi/libc/queue-ext-T.h:53-59 | the node becomes the first of the sequence |
| IntrusiveQueue.Queue.InsertAfter | libpi/libc/Q.h:71-82 | the node comes right after the given member wherever that stands, or first when none is given |
| IntrusiveQueue.Queue.ChainIsSpine | libpi/libc/Q.h:13-15 | following next from any member meets exactly the members behind it and then null: no cycle, tail is the last reachable node |
| IntrusiveQueue.Queue.Walk | libpi/libc/Q.h:13-15 | iteration from the start visits exactly the queued nodes in order |
| Ring.NelemRightIffDivides | libpi/libc/circular.h:70 | the wrapping subtraction gives the element count for all indices if and only if the capacity divides 2^32 |
| Ring.NelemCounts | libpi/libc/circular.h:65-71 | for such capacities the count is the number of unread cells, and full means all but one cell are unread |
| Ring.PushAppends | libpi/libc/circular.h:102-114 | writing the cell touches no unread cell, and only publishing the head appends the element |
| Ring.PopRemoves | libpi/libc/circular.h:74-86 | advancing the tail removes exactly the oldest unread element, the one in the cell at the tail |
| Circular.Cq.Push | libpi/libc/circular.h:101-114 | appends the element if and only if fewer than N-1 are queued, else changes nothing; the inner assertion cannot fail |
| Circular.Cq.PopNonblock | libpi/libc/circular.h:73-86 | takes the oldest element if and only if there is one |
| Circular.Cq.PopN | libpi/libc/circular.h:126-132 | moves out the first k in order without waiting if and only if that many are queued; otherwise all there are, and then it panics or waits |
| Circular.Cq.PopNNoblk | libpi/libc/circular.h:133-139 | all k elements in order, or none and nothing changed |
| Circular.Cq.PeekN | libpi/libc/circular.h:141-157 | the first k elements, if there are that many, with contents and tail as before; the assertion on the count holds |
| Circular.Cq.PushN | libpi/libc/circular.h:160-175 | all elements in order if they fit, else none; the panic for missing space is unreachable |
| CircularConcurrent.LockFreeFifo | libpi/libc/circular.h:65-175 | for every interleaving of producer and consumer micro-steps, bulk calls included: what was accepted is what was delivered followed by the unread cells, never more than N-1 of them; the count is right at every moment; no producer panic is reachable; the bulk non-blocking pop never waits |
| CircularConcurrent.ProducerKeeps | libpi/libc/circular.h:101-114 | a producer step adds at most one element at the end and disturbs no unread cell |
| CircularConcurrent.ConsumerKeeps | libpi/libc/circular.h:73-86 | a consumer step removes at most the oldest element |
| CircularConcurrent.SuccessIsComplete | libpi/libc/circular.h:126-139 | a pop call that succeeds returns exactly as many elements as were asked for |
| CircularAnswers.PushRefusedExactly | libpi/libc/circular.h:101-104 | a push comes back undone if and only if it is a lone one at its full test with N-1 elements unread, or a bulk one at its space check with too many data, and then has changed nothing |
| CircularAnswers.PopRefusedExactly | libpi/libc/circular.h:74-76 | a pop comes back undone if and only if it is a lone one at its empty test with nothing unread, or a counted one at its check with fewer than it wants, and then has changed nothing |
| CircularAnswers.AdmittedPushFinishes | libpi/libc/circular.h:102-114 | a push that is admitted ends after exactly four of its own steps for each element it has left, whatever the consumer does meanwhile, with its data pushed |
| CircularAnswers.SuppliedPopFinishes | libpi/libc/circular.h:74-132 | a pop that finds enough unread ends after exactly four of its own steps for each element it still wants, whatever the producer does, with the oldest elements; cq_pop_n included |
| CircularAnswers.PushCall | libpi/libc/circular.h:101-175 | a whole call, with the consumer running before and after its first step: nothing pushed if the data do not fit at that step, all of them pushed if they do |
| CircularAnswers.PopCall | libpi/libc/circular.h:73-139 | a whole call of the non-blocking pops: nothing popped if fewer than k are unread at its first step, else the k that were then oldest |
| CircularAnswers.PopNCall | libpi/libc/circular.h:126-132 | a whole call of cq_pop_n comes back with the k elements that are oldest when enough are there |
| CircularAnswers.FirstPush | libpi/libc/circular.h:102-114 | a push into an empty queue of two cells or more succeeds |
| Radio.DrainConserves | labs/17-nrf-networking/code/nrf-driver.c:391-401 | over any arrivals during the drain, packets taken before and during it followed by those left in the FIFO are the accepted ones in order |
| Radio.GetAllConserves | labs/17-nrf-networking/code/nrf-public.c:9-15 | the same for draining until a drain finds nothing |
| Radio.GetAllPauses | labs/17-nrf-networking/code/nrf-public.c:9-14 | it stops only where two reads of the status register in a row had nothing arrive before them, or a single one if there was nothing at all |
| Radio.DrainPauses | labs/17-nrf-networking/code/nrf-driver.c:392-401 | a drain stops only at a read of the status register before which nothing arrived |
| Nrf.Nic.Conserved | labs/17-nrf-networking/code/nrf-driver.c:371-405 | bytes read, then bytes queued, then packets in the FIFO are always the concatenation of all accepted packets, so readers have a prefix of it |
| Nrf.Nic.NrfGetPkts | labs/17-nrf-networking/code/nrf-driver.c:371-405 | moves every packet found up to a status read that shows none and returns their number, or panics if and only if their bytes do not fit the queue |
| Nrf.Nic.NrfNbytesAvail | labs/17-nrf-networking/code/nrf-public.c:9-15 | drains the device and returns the number of bytes then queued |
| Nrf.Nic.NrfReadExactNoblk | labs/17-nrf-networking/code/nrf-public.c:17-31 | exactly the oldest k bytes if that many can be had, else 0 with nothing consumed and the buffer untouched; panics on k of 0 and on overflow only |
| Nrf.Nic.NrfReadExactTimeout | labs/17-nrf-networking/code/nrf-public.c:33-51 | for any timer reads: k bytes, or a timeout at the first poll whose measured time reaches the limit, never before the true deadline, with every byte still unread; with prompt polls exactly at the first poll from the true deadline on; or still waiting when the timer reads run out |
| Nrf.Nic.NrfReadExact | labs/17-nrf-networking/code/nrf-public.c:55-69 | k bytes, or a panic, or still waiting while less than ten seconds were measured |
| Timeout.LostNothing | libpi/include/timeout.h:30-35 | no time is lost if and only if every poll comes less than a counter period after the one before, and never more than has passed |
| Timeout.TimeoutT.GetUsec | libpi/include/timeout.h:28-35 | over any number of polls and wraps the total is the true elapsed time less the whole periods between polls; exact if and only if there were none |
| Timeout.TimeoutT.Usec | libpi/include/timeout.h:43-45 | never true before the deadline, and true exactly from the deadline on when polls are prompt |
| Timeout.TimeoutT.Msec | libpi/include/timeout.h:46-48 | the same for deadlines whose microseconds fit in 64 bits; a longer one counts as its low 64 bits |
| Timeout.TimeoutT.Sec | libpi/include/timeout.h:49-51 | the same in seconds |
| Timeout.APeriodIsLost | libpi/include/timeout.h:11-13 | two polls one period apart see no time pass |
| Crc.Crc32Tab | libpi/libc/crc.c:8-52 | every one of the 256 entries is eight division steps of its index by 0xEDB88320 |
| Crc.TableStep | libpi/libc/crc.c:58-59 | one table step has the effect of the eight bits of the byte, low bit first |
| Crc.OurCrc32Inc | libpi/libc/crc.c:54-61 | for every buffer and start value the table loop computes the bit-serial CRC |
| Crc.OurCrc32 | libpi/libc/crc.c:63-65 | the bit-serial CRC from 0 |
| CrcResidue.ZeroByte | libpi/libc/crc.c:57-60 | the CRC of one zero byte is 0xD202EF8D |
| CrcResidue.LeadingZeroNoticed | libpi/libc/crc.c:57 | a zero byte in front of a message always changes its CRC |
| CrcResidue.Residue | libpi/libc/crc.c:54-65 | any message followed by the four bytes of its CRC, low byte first, has CRC 0x2144DF1C |
| CrcResidue.StartDecides | libpi/libc/crc.c:54-61 | different CRCs so far stay different over the same rest |
| Crc.CrcChains | libpi/libc/crc.c:54-61 | continuing from the CRC of a first part gives the CRC of the whole, for any cut |
| Crc.FeedInjective | libpi/libc/crc.c:57-60 | different register states stay different under the same bits |
| Crc.BurstDetected | libpi/libc/crc.c:54-61 | different messages of one length whose bits differ only inside a window of 32 consecutive bits always have different CRCs |
| Random.OutputIsStream | libpi/libc/random.c:140-181 | call n of the in-place generator returns bits 1 to 31 of y(n+deg), where y(k) = y(k-deg) + y(k-sep) mod 2^32 starts from the table read from the front pointer on |
| Random.TableIsWindow | libpi/libc/random.c:163-177 | after n calls the table read from the front pointer is y(n) to y(n+deg-1) |
| Random.PointersTurn | libpi/libc/random.c:137-139 | with the pointers sep apart, testing the rear one only when the front one did not wrap moves both around the table and keeps them inside |
| Random.RandomData.RandomR | libpi/libc/random.c:140-185 | the structure becomes the next generator, the result is its output, and neither the tag nor anything behind the table changes |
| Random.SchrageIsModular | libpi/libc/random.c:222-229 | the quotient and remainder step is 16807 times the word modulo 2^31-1 on every 32-bit word, negative ones included, and nothing overflows |
| Random.RearAfter | libpi/libc/random.c:163-177 | k calls move the rear pointer k cells around the table |
| Random.SeededRear | libpi/libc/random.c:233-240 | after throwing away ten values for every cell the rear pointer is at the start again |
| Random.RandomData.SrandomR | libpi/libc/random.c:195-247 | the new state is the one that RandomSeed describes in closed form, whatever the structure held before; fails without change on an unknown type |
| RandomSeed.SeedIsPower | libpi/libc/random.c:220-231 | word i behind the seed is 16807^i times the seed modulo 2^31-1 |
| RandomSeed.SeededStream | libpi/libc/random.c:195-247 | number n after seeding is bits 1 to 31 of value n+11*deg of the stream with x^7+x^3+1, x^15+x+1, x^31+x^3+1 or x^63+x+1 that starts from the seed and its products with powers of 16807 |
| RandomSeed.SeededLinear | libpi/libc/random.c:149-155 | with a single word of state, number n is 1103515245^n times the seed plus 12345 times the sum of the powers below, modulo 2^31 |
| RandomSeed.NumberAfterSeeding | libpi/libc/random.c:140-247 | srandom_r, n numbers thrown away, and random_r on the structure give that number |
| RandomSeed.BestType | libpi/libc/random.c:270-281 | the type chosen has a table of 7, 15, 31 or 63 words from 32, 64, 128 and 256 bytes on |
| Random.RandomData.InitstateR | libpi/libc/random.c:260-305 | picks the best type for the size, seeds it in the given array and writes its tag; fails below 8 bytes with nothing changed |
| Random.TagRoundTrip | libpi/libc/random.c:332-344 | the tag is five times the rear index plus the type, and both come back from it |
| Random.SaveLoad | libpi/libc/random.c:327-350 | a state taken up from where it was saved is the same generator |
| Random.RandomData.SetstateR | libpi/libc/random.c:315-356 | the old array holds the old state; switching to the current array changes nothing; a tag with a negative remainder fails with the generator as it was; any other array is taken up, and is the generator saved in it if and only if its tag and length fit, both pointers being in the table if and only if the rear index of the tag is below the degree |
| Random.SwitchAndBack | libpi/libc/random.c:307-356 | switching to another array, drawing any number of values there and switching back resumes the first stream as if never interrupted, and leaves the other one advanced by just those values |
| Random.OldTag | libpi/libc/random.c:297-299 | a state whose tag is k calls old loads as what it is now if and only if it has no table or k is a multiple of its degree |
| Random.InitstateAndBack | libpi/libc/random.c:249-305 | initstate_r on another array and setstate_r back resume the stream that was in use if and only if the size was refused, or there is no table, or the old tag holds the present rear index |
| Random.TwoStreams | libpi/libc/random.c:249-356 | initstate_r, k draws, initstate_r elsewhere and setstate_r back resume the stream if and only if the second size was refused, or there is no table, or k is a multiple of the degree |
| Random.OneDrawIsLost | libpi/libc/random.c:253-258 | one draw is enough to lose the stream, for every seed and every type with a table |
| MemAttr.PermSurvives | labs/16-vm-page-table/code/pt-vm.c:83-85 | a permission comes back from the descriptor if and only if it does not set bit 1 |
| MemAttr.MemSurvives | labs/16-vm-page-table/code/pt-vm.c:77-84 | the caching policy always does |
| PageTable.TableIsLastMapping | labs/16-vm-page-table/code/pt-vm.c:63-95 | for both section sizes: after any list of mappings on a fresh table, the descriptor of every address, through whichever slot, is that of the last mapping covering it, or an untouched zero one |
| PageTable.CopiesAgree | labs/16-vm-page-table-16MB/code/pt-vm.c:73-93 | two addresses in one section always have the same descriptor; so the 16 copies of a supersection never differ |
| PageTable.TranslationIsLastMapping | labs/16-vm-page-table/code/pt-vm.c:97-123 | lookup succeeds exactly on covered addresses, vm_xlate gives the mapping's base, the hardware keeps the offset, and the two addresses are the same if and only if the offset is 0 |
| PageTable.DescriptorFields | labs/16-vm-page-table/code/pt-vm.c:77-89 | the descriptor of a covered address is executable, with the deprecated and implementation bits 0, global if and only if the attribute is, and with its domain, caching policy and, if bit 1 is clear, permission |
| PageTable.VmDup | labs/16-vm-page-table/code/pt-vm.c:24-29 | a separate table with the same entries |
| Section.VmMapSec | labs/16-vm-page-table/code/pt-vm.c:61-95 | succeeds if and only if both addresses are aligned and the page size is 1MB, and writes one slot only |
| Section.VmXlate | labs/16-vm-page-table/code/pt-vm.c:109-123 | the translation that TranslationIsLastMapping speaks of |
| SuperSection.VmMapSec | labs/16-vm-page-table-16MB/code/pt-vm.c:61-99 | succeeds if and only if both addresses are 16MB aligned and the page size is 16MB, and writes exactly the 16 slots of the supersection |
| SuperSection.VmXlate | labs/16-vm-page-table-16MB/code/pt-vm.c:113-127 | the translation that TranslationIsLastMapping speaks of, for supersections |
| ProcMap.DomPerm | labs/16-vm-page-table/code/procmap.h:44-57 | every domain in use has the permission in its own two bits and all others have 0; fails exactly on no domains, a domain above 15 or a permission above 3 |
| ProcMap.ProcMap.Push | labs/16-vm-page-table/code/procmap.h:36-42 | appends the region and keeps the domain bits those of the regions; refuses a ninth region or a domain above 15 |
| ProcMap.ProcMap.Lookup | labs/16-vm-page-table/code/procmap.h:59-70 | the first region that passes the comparison of 32-bit pointers |
| ProcMap.FindMeansWithin | labs/16-vm-page-table/code/procmap.h:59-70 | lookup finds something if and only if some region passes, and then such a region |
| ProcMap.ProcmapDefaultMk | labs/16-vm-page-table/code/procmap.h:87-123 | the seven default regions, if and only if the domain, the end of the program and the heap pass the checks |
| KernelMap.KernelIsIdentity | labs/16-vm-page-table/code/pt-vm.c:161-165 | for both sizes: an address is mapped if and only if it lies in the section of a region, and then onto itself |
| KernelMap.KernelAgreesWithList | labs/16-vm-page-table/code/pt-vm.c:148-175 | table lookup and list lookup agree on every address if and only if no region is the top megabyte, whose end wraps to 0 |
| KernelMap.CoveredByRegion | labs/16-vm-page-table/code/pt-vm.c:161-165 | without duplicate regions the last mapping that covers an address is that of the region the list finds |
| KernelMap.DescriptorIsRegion | labs/16-vm-page-table/code/pt-vm.c:125-138 | its descriptor then has that region's base and domain, is global and executable, readable and writable by the kernel only, strongly ordered for a device and uncached for memory |
| KernelMap.SuperKernelMapsMore | labs/16-vm-page-table-16MB/code/pt-vm.c:165-169 | with supersections table and list agree if and only if the list is empty |
| KernelMap.DefaultList | labs/16-vm-page-table/code/procmap.h:87-123 | the default list can be mapped by sections, with table and list in agreement: exactly the addresses below 2MB, in the megabyte below 0x8000000 and below 0x9000000, and the three megabytes of devices from 0x20000000; it cannot be mapped by supersections |
| KernelMap.VmMapKernel | labs/16-vm-page-table/code/pt-vm.c:148-175 | for both sizes: succeeds if and only if there are regions, all aligned and none read-only; then the table is that of the regions mapped onto themselves and the domain register gives client access to just their domains |
| PiCat.ScanConcat | libunix/pi-cat.c:6-22 | the answer does not depend on where the stream is cut into reads |
| PiCat.FoundIff | libunix/pi-cat.c:6-22 | a match is reported if and only if the exit string occurs with an even number of unfinished copies right before it; so only real occurrences |
| PiCat.NeverMissedWhenFresh | libunix/pi-cat.c:6-22 | never misses one at the start of the stream, after a newline, or after anything that is not an unfinished copy |
| PiCat.MissesDoubledD | libunix/pi-cat.c:13-16 | but misses the one in "DDONE!!!" and newline |
| PiCat.CleanChangesNothing | libunix/pi-cat.c:24-35 | blanking unprintable characters neither makes nor breaks a match |
| PiCat.RemoveNonprint | libunix/pi-cat.c:26-35 | blanks exactly the characters that are neither printable nor white space, and the carriage return, among the first n |
| PiCat.Matcher.PiDone | libunix/pi-cat.c:6-22 | answers and moves as one matcher over the whole stream; after a match any further text fails its assertion |
| PiCat.PiCat | libunix/pi-cat.c:39-66 | leaves after the first read with which the stream so far holds an exit string that is not missed |

## Left out

- EquivRun: asks for the number of events each thread still needs, since with a thread that never stops it does not return; NonInterference and RoundRobin hold without that.
- MiniStepRun: asks for the unstepped run to reach ss_on_exit, for the same reason; SteppingIsTransparent holds without that. The step handler is an observer of the pc and does not change the registers.
- Fork: hash and instruction count of a new thread are 0 because the allocator zeroes its blocks; the code does not set them itself.
- Refresh: does not reset the thread's private memory, which is a parameter: the guarantee is for threads that find the same memory again.
- HashCheckIsExact: a solo hash of 0 reads as no expectation, so such a thread is never checked; the statement says so through its condition.
- Halted: user code that jumps to ss_on_exit under the equivalence threads ends the model in a halted state; the code would switch to registers that mini-step never saved.
- Processor: coprocessor access, assembly, context switch and prefetch flush are the abstract step of `Cpu` and the mismatch register of `MiniStep`; the wait for the UART and verbose output are not modelled.
- PeekN: sequential only, as it moves the tail back.
- PopN: on a queue that runs out, panicking with interrupts disabled and waiting with them enabled are one outcome; the wait, and its end when the producer pushes, are steps of LockFreeFifo.
- LockFreeFifo: memory is sequentially consistent, as the memory barriers are there to ensure; the wait in cq_pop is a step that changes nothing, and its panic with interrupts off is not part of the model.
- Circular queue: the 32-bit wrappers, cq_peek, cq_print and the unused overflow fields.
- NrfGetPkts: the device is a FIFO of packets of the configured length; registers, SPI transfers, interrupt flags, transmission and the assertions on the configuration register are not modelled.
- NrfNbytesAvail: a finite number of packet batches arrives, so it returns; with packets at every single poll the loop of the source never does.
- NrfReadExactTimeout: other threads that run during rpi_wait do not touch this radio, and the timer reads span less than 2^64 microseconds.
- Random: allocation, and the null-pointer failures.
- Descriptors: a record of the fields; packing them into 32 bits is the compiler's layout of the bit-fields.
- SuperSection.VmMapSec: the pointer it returns is always that of the first descriptor and says nothing about the mapping.
- VmMapKernel: turning on the MMU and the switch to the new table; process and address space numbers.
- ProcMap: pr_ent_mk is the predicate Made; the bounds of program and heap are parameters of ProcmapDefaultMk.
- PiCat: reads of no bytes or with an error, the terminal and process handling; remove_nonprint is for the C locale.
- Everything else: device drivers, FAT32, printing, strings, allocation and the Unix side, which would add only easy members.
