# Aeglos, modelled and proved

Aeglos.OS is an AArch64 kernel with its own page allocator, page tables, SMP
scheduler, TCP, FAT32 driver and a small persistent blob store. This project
models those components in Dafny and proves what they keep over whole runs:
translations, byte streams, stored blobs, cluster chains, wake-ups, fairness.

Most components come in two layers. A specification layer gives every operation
as a function of the state and proves properties of it for all inputs and all
runs. An imperative layer keeps the state as the kernel does, in arrays and fields
updated in place by loops, and each method is proved to do exactly what the
function of the specification layer says.

| files | component |
|---|---|
| `PageAllocator`, `PageTables`, `VirtualMemory`, `AddressSpace` | bitmap page allocator, four-level page tables, process address spaces, mmap and munmap |
| `RingBuffer`, `TcpProtocol`, `TcpWindow`, `TcpTimers`, `TcpExchange`, `TcpConnection`, `TcpNetwork`, `TcpFault` | TCP data path, its windows and timers, and two endpoints over a network that loses, repeats and reorders |
| `Scheduler`, `SchedulerSmp`, `SchedulerSwitch`, `SchedulerWakeups`, `SchedulerIdle`, `SchedulerFairness`, `SchedulerCalls`, `SchedulerExit`, `SchedulerQuantum`, `SchedulerTable`, `Mailbox` | SMP scheduler and mailboxes |
| `StoreLayout`, `StoreCrash`, `StoreOutcome`, `StoreRuns`, `StoreFault`, `StoreDevice`, `VectorSearch` | persistent blob store under crashes, similarity search |
| `FatChains`, `FatPartition`, `FatLayout`, `FatVolume`, `FatCursor`, `FatFiles` | FAT32 cluster chains, sector cache, reading and seeking |
| `Checksum`, `Csprng`, `ChachaRfc`, `ConfigText`, `ConfigTable` | internet checksums, ChaCha20 stream, configuration file |
| `Bytes`, `Arithmetic`, `Wrappers` | shared types and arithmetic |

Main results:

- Page tables. Mapping a range changes the translation of exactly its pages,
  splitting a 2 MiB block changes none, other address spaces keep theirs, a process
  table maps what its segments cover, and munmap undoes mmap.
- TCP. On every run that respects the stated conditions, what one side has read is
  a prefix of what the other has written. Without the condition on
  acknowledgements this is false: `TcpFault.AckPastFlightCorrupts` gives the run,
  `TcpProtocol.AckAlignedIff` the exact condition for one acknowledgement. A flush
  sends as much as eight segments and the smaller of the two windows allow, a silent
  peer is given up after exactly 2350 ticks, and a closed window is probed for ever.
- Scheduler. No slot is current on two CPUs; no wake-up is lost; with an idle task no
  CPU gets stuck on a blocked or dead task; a ready task runs within 120 ticks of its
  CPU. The first fails in the window after a yield, the last with a task pinned to the
  CPU; both have counterexamples and exact conditions, and `SchedulerIdle.RevivedIff`
  says exactly when an operation brings a dead task back to life.
- Store. After a crash between any two sector writes the store mounts with nothing
  lost, and from a zeroed disk on the first data stored under a hash is what retrieve
  returns ever after. A start-up of a full store is the exception, with its exact
  condition and a run from a zeroed disk that loses data.
- FAT32. Every run of cluster operations keeps the table a partition into free
  clusters and finite disjoint chains; freeing ends even on a cyclic table; the
  cache never shows; seek then read returns the slice asked for. A read that ends at
  the end of a cluster leaves the next one behind, and `FatCursor.SequentialIff` says
  exactly when successive reads agree with their offsets.

Where the code and its documentation disagree the model follows the code. The
comment at `kernel/src/fs/fat32.rs:686` says a read advances when it has crossed a
cluster boundary; the code advances only if more is wanted. The comment at
`kernel/src/process/scheduler.rs:464` says a task pinned elsewhere is never touched
by another CPU, which holds of the scans; but nothing keeps an unpinned task that
has yielded on its own CPU. `kernel/src/config.rs:172` promises failure only for full
tables and long keys or values; a key or value that a line cannot carry is accepted,
and the flushed text does not parse back to it.

## Model

| member | source | states |
|---|---|---|
| PageBitmap.PageAllocator.constructor | kernel/src/memory/page.rs:42-77 | every page between the kernel and the top of RAM is free |
| PageBitmap.PageAllocator.AllocPages | kernel/src/memory/page.rs:81-116 | returns the lowest run of free pages and takes exactly it; None exactly when there is no such run |
| PageBitmap.PageAllocator.FreePage | kernel/src/memory/page.rs:124-139 | frees the page at a managed address, ignores every other address |
| PageBitmap.PageAllocator.ReleasePages | kernel/src/memory/page.rs:142-146 | frees exactly the managed pages among the addresses, for any base and count |
| PageBitmap.PageAllocator.FreePages | kernel/src/memory/page.rs:149-161 | counts the free pages of the bitmap |
| PageBitmap.DecodePutBit | kernel/src/memory/page.rs:100-105 | setting one bit of one byte changes one page of the decoded bitmap |
| PageBitmap.TakeLowersCount | kernel/src/memory/page.rs:99-105 | taking a free run lowers the free count by its length |
| PageBitmap.ReleaseUndoesTake | kernel/src/memory/page.rs:142-146 | releasing what was allocated restores the bitmap |
| PageTables.WalkByNodes | kernel/src/memory/vmm.rs:287-310 | the hardware walk of a page, told by the tables on its path |
| PageTables.IndicesSeparate | kernel/src/memory/vmm.rs:290-293 | different pages differ in one of the four table indices |
| PageTables.GraftTree | kernel/src/memory/vmm.rs:335-356 | hanging a new table into a tree of tables gives a tree |
| PageTables.GraftWalk | kernel/src/memory/vmm.rs:335-356 | a new empty table, or a 2 MiB block split into 512 pages, changes the translation of no page |
| PageTables.PutLeafTree | kernel/src/memory/vmm.rs:308-308 | writing a level-3 descriptor keeps the tree |
| PageTables.PutLeafWalk | kernel/src/memory/vmm.rs:308-308 | writing a level-3 descriptor changes the translation of its page only |
| VirtualMemory.Vmm.AllocTable | kernel/src/memory/vmm.rs:97-99 | a zeroed table on a page that was free and is now taken |
| VirtualMemory.Vmm.GetOrAllocSubtable | kernel/src/memory/vmm.rs:335-356 | returns the next table, allocating or splitting, with every translation unchanged |
| VirtualMemory.Vmm.MapOnePage | kernel/src/memory/vmm.rs:287-310 | one page mapped with merged permissions, all others translate as before |
| VirtualMemory.Vmm.MapPages | kernel/src/memory/vmm.rs:275-284 | the page map becomes the old one with the range mapped over it |
| VirtualMemory.MapRangeMeaning | kernel/src/memory/vmm.rs:275-310 | each page of the range goes to its frame with the merged flags, the others as before |
| VirtualMemory.PageCountExact | kernel/src/memory/vmm.rs:276-278 | the last page counted is the page of the last byte |
| VirtualMemory.OtherSpaceUnchanged | kernel/src/memory/vmm.rs:275-310 | a space that shares no table keeps its whole translation while another is mapped |
| VirtualMemory.ExistingLeaf | kernel/src/memory/vmm.rs:300-306 | the descriptor found before merging is what the page map says of the page |
| VirtualMemory.Vmm.UnmapPages | kernel/src/memory/vmm.rs:362-403 | unmaps every page of the range that has a level-3 entry, frees its frame, changes nothing else |
| VirtualMemory.Vmm.UnmapOnePage | kernel/src/memory/vmm.rs:367-395 | one page; a page under a 2 MiB block is skipped |
| AddressSpace.CreateProcessTable | kernel/src/memory/vmm.rs:255-271 | a new root whose page map is that of the segments in order, on pages that were free, with no large block; a task space when the segments lie below 2^48 in allocated pages |
| AddressSpace.ProcessTableMeaning | kernel/src/memory/vmm.rs:255-310 | a page is mapped exactly when a segment covers it, to itself, never executable at EL1, with the rights of the covering segments |
| AddressSpace.El0Segments | kernel/src/memory/vmm.rs:255-310 | with EL0 segments only, EL0 may execute a page exactly when an executable segment covers it |
| AddressSpace.NewProcessSpace | kernel/src/memory/vmm.rs:255-271 | such a space is one that mmap and munmap may work on: identity pages, none free, none a table |
| AddressSpace.SysMmap | kernel/src/syscall/mod.rs:780-797 | -1 exactly for size 0, -12 exactly when no run of free pages is long enough, both changing nothing; otherwise an address, and with a table every page of the run is mapped to itself, readable and writable at EL0 and executable nowhere, or the allocator ran out of tables |
| AddressSpace.SysMunmap | kernel/src/syscall/mod.rs:804-810 | unmaps the pages of the range and frees their frames; -1 for bad arguments or without a table |
| AddressSpace.MmapThenMunmap | kernel/src/syscall/mod.rs:780-810 | restores the translation, and the free pages except those that became page tables |
| RingBuffer.RingBuf.Push | kernel/src/net/tcp.rs:52-61 | appends as much as fits |
| RingBuffer.RingBuf.Pop | kernel/src/net/tcp.rs:62-71 | takes up to the wanted bytes from the front |
| RingBuffer.RingBuf.PeekFrom | kernel/src/net/tcp.rs:82-90 | copies from an offset, removing nothing |
| RingBuffer.RingBuf.Discard | kernel/src/net/tcp.rs:92-96 | drops bytes from the front |
| TcpProtocol.FlushAligned | kernel/src/net/tcp.rs:478-528 | flushing keeps ring, sequence numbers and stream aligned, and every segment carries the bytes belonging at its number |
| TcpProtocol.AckAligned | kernel/src/net/tcp.rs:819-870 | an acknowledgement within the bytes in flight keeps the sender aligned, through new, duplicate and triple-duplicate cases |
| TcpProtocol.AckAlignedIff | kernel/src/net/tcp.rs:823-823 | an aligned sender stays aligned exactly when one byte past the flight is not acknowledged |
| TcpProtocol.ProbeCarriesIff | kernel/src/net/tcp.rs:977-989 | exactly when the zero-window probe carries the byte belonging at its number |
| TcpProtocol.TickAligned | kernel/src/net/tcp.rs:975-1035 | retransmission, giving up, and a probe with nothing in flight keep the sender aligned |
| TcpProtocol.DeliverInOrder | kernel/src/net/tcp.rs:880-884 | delivery keeps what was received a prefix of the peer's stream |
| TcpProtocol.OnSegmentAligned | kernel/src/net/tcp.rs:817-885 | a whole incoming segment keeps the sending side aligned |
| TcpProtocol.OnSegmentInOrder | kernel/src/net/tcp.rs:817-885 | a whole incoming segment keeps the receiving side in order |
| TcpWindow.FlushFillsWindow | kernel/src/net/tcp.rs:478-528 | a flush stays inside both windows and stops early only when the ring is sent out, the window is used up or segments have no size |
| TcpWindow.FlushSendsRing | kernel/src/net/tcp.rs:478-528 | it sends the ring from the send position on, each byte once and in order |
| TcpWindow.FlushSegments | kernel/src/net/tcp.rs:478-528 | segments follow on from each other, are full except the last, and carry the current acknowledgement and receive window |
| TcpWindow.FlushTouches | kernel/src/net/tcp.rs:513-526 | nothing else changes but the retransmission timer, when the first byte in flight is sent |
| TcpWindow.WindowGrows | kernel/src/net/tcp.rs:825-836 | slow start and congestion avoidance, the latter by the quotient without naming the division |
| TcpWindow.NewAckSlides | kernel/src/net/tcp.rs:838-848 | a new acknowledgement takes its bytes out of the ring and resets counters and back-off |
| TcpWindow.ThirdRepeat | kernel/src/net/tcp.rs:819-864 | after a new acknowledgement two bare repeats only count, and the third sends the ring again from its start with threshold and window set from what was in flight |
| TcpWindow.LaterRepeat | kernel/src/net/tcp.rs:865-869 | every further repeat widens the window by a segment |
| TcpWindow.OldAckIgnored | kernel/src/net/tcp.rs:819-870 | any other old acknowledgement changes nothing |
| TcpTimers.Expiry | kernel/src/net/tcp.rs:1000-1034 | one expiry: the first segment again, window of one segment, threshold at half the flight, doubled back-off; the sixth gives up |
| TcpTimers.SameSegmentAgain | kernel/src/net/tcp.rs:973-1035 | whenever ticks come, a silent peer gets the same segment at most five times, and the connection is closed by the expiry after the fifth |
| TcpTimers.GivesUp | kernel/src/net/tcp.rs:973-1035 | bytes written to an idle connection and never answered are sent again 50, 150, 350, 750 and 1550 ticks later and the connection is closed after exactly 2350 |
| TcpTimers.ProbeTick | kernel/src/net/tcp.rs:976-998 | a due probe carries the first byte and puts the next off, twice as long each time, at most 6000 ticks |
| TcpTimers.ArmedIff | kernel/src/net/tcp.rs:845-878 | exactly when the probe timer is armed after a segment, and for when |
| TcpTimers.BothTimers | kernel/src/net/tcp.rs:973-1035 | when both timers are due the probe comes first and the back-off of the retransmission is that of before the tick |
| TcpTimers.ClosedWindowProbed | kernel/src/net/tcp.rs:973-998 | after the window closes with nothing in flight, probes follow after 100, 200, 400, 800, 1600, 3200 and 6400 ticks and every 6000 from then on |
| TcpExchange.Received | kernel/src/net/tcp.rs:880-885 | in-order data is taken as far as there is room and acknowledged, anything else is left alone |
| TcpExchange.AckedLast | kernel/src/net/tcp.rs:817-885 | a whole segment in order ends with the acknowledgement of what was taken |
| TcpExchange.LosslessExchange | kernel/src/net/tcp.rs:478-885 | a flush, its delivery and the last acknowledgement move bytes from one ring to the other, none lost and none twice, and something moves unless there is nothing to send or no room |
| TcpConnection.TcpConn.FlushTx | kernel/src/net/tcp.rs:478-528 | the loop over the ring is the flush of the protocol: never past the window of the peer or the congestion window, and fewer than eight segments only when the ring is sent out, the window used up or the segment size 0 |
| TcpConnection.TcpConn.TcpWrite | kernel/src/net/tcp.rs:464-475 | accepts all that fits the ring and flushes |
| TcpConnection.TcpConn.TcpRead | kernel/src/net/tcp.rs:531-536 | returns the front of what was received, as much as asked or all there is |
| TcpConnection.TcpConn.HandleAck | kernel/src/net/tcp.rs:819-870 | new and duplicate acknowledgements, with congestion window and ring |
| TcpConnection.TcpConn.DuplicateAck | kernel/src/net/tcp.rs:851-869 | counting, fast retransmit and window inflation |
| TcpConnection.TcpConn.DeliverData | kernel/src/net/tcp.rs:880-884 | in-order data into the ring, and its acknowledgement |
| TcpConnection.TcpConn.TcpHandleSegment | kernel/src/net/tcp.rs:817-885 | the whole segment handler of an established connection |
| TcpConnection.TcpConn.PersistProbe | kernel/src/net/tcp.rs:975-998 | the zero-window probe and its back-off |
| TcpConnection.TcpConn.Retransmit | kernel/src/net/tcp.rs:1000-1035 | timeout, restart from the first unacknowledged byte, giving up |
| TcpConnection.TcpConn.TcpTick | kernel/src/net/tcp.rs:973-1035 | the timer work of an established connection |
| TcpNetwork.StepSound | kernel/src/net/tcp.rs:464-536 | every action of either endpoint that respects the run conditions keeps both streams sound, whatever the network delivers |
| TcpNetwork.RunSound | kernel/src/net/tcp.rs:478-528 | on every run under the conditions (below 2^32 bytes, acknowledgements within the flight, no probe over data in flight) each ring holds exactly the unacknowledged rest, and every segment ever sent carries the bytes of its number |
| TcpNetwork.ReadIsPrefix | kernel/src/net/tcp.rs:464-536 | under the same conditions what a side has read is a prefix of what the other has written |
| TcpFault.AckPastFlightCorrupts | kernel/src/net/tcp.rs:823-823 | a run in which the slack of one byte makes the peer read a wrong stream |
| Scheduler.SlotOf | kernel/src/process/scheduler.rs:880-882 | the first slot that holds a task number |
| Scheduler.Scan | kernel/src/process/scheduler.rs:475-489 | the nearest eligible slot after the current one, going round |
| Scheduler.Choose | kernel/src/process/scheduler.rs:468-525 | what the three scans find is another slot, ready and allowed here |
| SchedulerCalls.SendMeans | kernel/src/process/scheduler.rs:875-898 | accepted exactly when the first slot with the number exists and holds fewer than eight messages; then the message is last in that mailbox, the task is not blocked and no other slot changes; refused changes nothing |
| SchedulerCalls.ReceiveMeans | kernel/src/process/scheduler.rs:900-921 | the oldest message, which leaves the mailbox, or the caller blocks |
| SchedulerCalls.PollMeans | kernel/src/process/scheduler.rs:923-940 | polling is receiving without blocking |
| SchedulerCalls.SpawnMeans | kernel/src/process/scheduler.rs:223-257 | fails exactly when every slot is taken; otherwise the fields of the new task in the first empty slot |
| SchedulerCalls.BootMeans | kernel/src/process/scheduler.rs:126-158 | one idle task on CPU 0, and no tick changes anything before the first spawn |
| SchedulerCalls.IdleInitMeans | kernel/src/process/scheduler.rs:167-219 | the idle task of a secondary CPU, and exactly when it is refused |
| SchedulerCalls.ExitEnds | kernel/src/process/scheduler.rs:958-988 | the caller is dead with its code, its waiters are ready, nothing else changes |
| SchedulerCalls.KillEnds | kernel/src/process/scheduler.rs:789-819 | the same for any task, true exactly when there is one |
| SchedulerCalls.WaitMeans | kernel/src/process/scheduler.rs:990-1027 | the exit code of a dead task, whose slot is then empty; blocked on a living one; -1 for an unknown number |
| SchedulerCalls.WaiterGetsCode | kernel/src/process/scheduler.rs:958-1027 | a parent that waits while its child exits is blocked, then ready, and its next wait returns the code passed to exit and clears the slot |
| SchedulerExit.FirstWaitGetsCode | kernel/src/process/scheduler.rs:958-1027 | the first wait for a task that has exited returns its code, whatever happened in between on any CPU, while nothing revived it or ended it once more |
| SchedulerCalls.YieldMeans | kernel/src/process/scheduler.rs:942-956 | a yield makes the caller ready and does nothing else |
| SchedulerCalls.ParametersMean | kernel/src/process/scheduler.rs:701-1084 | signals wake a blocked task, pins hold for CPUs that exist, priorities are kept between 1 and 8, each for the first task with the number |
| SchedulerQuantum.DispatchGrants | kernel/src/process/scheduler.rs:541-547 | a tick that brings a task to its CPU gives it as many ticks as its priority, one at least |
| SchedulerQuantum.KeepsCpu | kernel/src/process/scheduler.rs:437-447 | within its quantum a running task keeps the CPU and only its count changes |
| SchedulerQuantum.QuantumOver | kernel/src/process/scheduler.rs:448-547 | at its end the task leaves exactly when another slot is runnable here, with a full quantum either way |
| SchedulerQuantum.QuantumExact | kernel/src/process/scheduler.rs:437-547 | a dispatched task runs through exactly as many ticks as its priority |
| SchedulerSmp.TimerExclusive | kernel/src/process/scheduler.rs:409-593 | a tick keeps no slot current on two CPUs, and its target was ready and unpinned or pinned here |
| SchedulerSmp.StepExclusive | kernel/src/process/scheduler.rs:167-257 | so do spawns, idle registration, sends, signals, polls, affinity and priority changes |
| SchedulerSmp.RunExclusive | kernel/src/process/scheduler.rs:409-593 | in every run of these the running tasks are exactly the current ones, each on one CPU |
| SchedulerSmp.BootExclusive | kernel/src/process/scheduler.rs:126-158 | that holds after start-up |
| SchedulerSwitch.ChoosesIff | kernel/src/process/scheduler.rs:468-525 | a task is found exactly when another slot is runnable here |
| SchedulerSwitch.LeavesIff | kernel/src/process/scheduler.rs:527-535 | a tick leaves a task that blocked, died or yielded exactly when another is runnable here; otherwise it revives it |
| SchedulerSwitch.ChooseIs | kernel/src/process/scheduler.rs:468-525 | the three scans choose the nearest slot of the first kind that has one |
| SchedulerSwitch.TakenTwiceIff | kernel/src/process/scheduler.rs:942-956 | exactly when a tick elsewhere takes a task that let go of its CPU but is still current there |
| SchedulerSwitch.YieldRace | kernel/src/process/scheduler.rs:942-956 | a yield and a tick on another CPU that leave both CPUs on one task |
| SchedulerSwitch.TwoCpusArise | kernel/src/process/scheduler.rs:167-257 | start-up, an idle registration, a spawn and a tick lead to the table of that example |
| SchedulerIdle.TickHere | kernel/src/process/scheduler.rs:409-593 | with its idle task in place, a tick of the CPU ends on a running task and leaves one that is not running in the state it chose |
| SchedulerIdle.StepKeepsIdle | kernel/src/process/scheduler.rs:167-1084 | each of the thirteen operations, on any CPU, keeps the idle task pinned, waiting for nobody, and running or ready |
| SchedulerIdle.BootIdle | kernel/src/process/scheduler.rs:126-158 | CPU 0 starts with its idle task in place |
| SchedulerIdle.RegisteredIdle | kernel/src/process/scheduler.rs:167-219 | so does a secondary CPU once it has registered it in a slot that no CPU is on |
| SchedulerIdle.NeverStuck | kernel/src/process/scheduler.rs:900-1027 | in every run in which the idle task only loops, no tick of its CPU leaves a blocked or dead task current or revives it |
| SchedulerIdle.RevivedIff | kernel/src/process/scheduler.rs:409-1027 | for each of the thirteen operations, exactly when it brings a dead task back to life |
| SchedulerWakeups.StepKeeps | kernel/src/process/scheduler.rs:701-1027 | each of the thirteen operations, on any CPU, keeps numbers unique, sleepers without mail, waits alive and messages accounted for |
| SchedulerWakeups.RunKeeps | kernel/src/process/scheduler.rs:701-1027 | so does every run |
| SchedulerWakeups.NoLostWakeups | kernel/src/process/scheduler.rs:875-1027 | from start-up: a task blocked for a message has received all accepted for it, waits name living tasks, everyone received a prefix in order |
| SchedulerFairness.TickAdvances | kernel/src/process/scheduler.rs:437-547 | a tick dispatches a waiting task or lowers its measure |
| SchedulerFairness.OthersQuiet | kernel/src/process/scheduler.rs:701-1084 | no other operation of the CPU raises it |
| SchedulerFairness.StillWaits | kernel/src/process/scheduler.rs:701-1084 | no other operation ends the waiting of a task that is neither killed nor pinned |
| SchedulerFairness.BoundedWaiting | kernel/src/process/scheduler.rs:437-547 | a ready unpinned task that nobody kills or pins is dispatched within 15 * 8 ticks, whatever the others do |
| SchedulerFairness.StarvesIff | kernel/src/process/scheduler.rs:471-505 | with one task pinned here, ticks ever bring up a slot exactly when it is that task or the first migratable after it |
| SchedulerFairness.NeverDispatched | kernel/src/process/scheduler.rs:471-505 | a table with a ready task that no number of ticks dispatches |
| SchedulerTable.TaskTable.constructor | kernel/src/process/scheduler.rs:126-158 | one idle task on CPU 0 |
| SchedulerTable.TaskTable.ScanFrom | kernel/src/process/scheduler.rs:475-489 | the loop is the scan |
| SchedulerTable.TaskTable.Tick | kernel/src/process/scheduler.rs:409-593 | the timer tick on arrays is the function ScheduleNext |
| SchedulerTable.TaskTable.SpawnTask | kernel/src/process/scheduler.rs:223-257 | first empty slot, next number |
| SchedulerTable.TaskTable.InitSecondaryIdle | kernel/src/process/scheduler.rs:167-219 | idle task of a secondary CPU |
| SchedulerTable.TaskTable.Exit | kernel/src/process/scheduler.rs:958-988 | marks the task dead and wakes its waiters |
| SchedulerTable.TaskTable.Kill | kernel/src/process/scheduler.rs:789-819 | the same for any task |
| SchedulerTable.TaskTable.Wait | kernel/src/process/scheduler.rs:990-1027 | reaps a dead task or blocks on a living one |
| SchedulerTable.TaskTable.Send | kernel/src/process/scheduler.rs:875-898 | appends to the mailbox and wakes a blocked receiver; fails when full or unknown |
| SchedulerTable.TaskTable.Receive | kernel/src/process/scheduler.rs:900-921 | takes the first message or blocks |
| SchedulerTable.TaskTable.TryReceive | kernel/src/process/scheduler.rs:923-940 | takes the first message if there is one |
| SchedulerTable.TaskTable.Yield | kernel/src/process/scheduler.rs:942-956 | the current task becomes ready |
| SchedulerTable.TaskTable.Signal | kernel/src/process/scheduler.rs:701-725 | wakes a blocked task |
| SchedulerTable.TaskTable.Pin | kernel/src/process/scheduler.rs:1053-1069 | sets or clears the CPU a task is pinned to |
| SchedulerTable.TaskTable.Prioritise | kernel/src/process/scheduler.rs:1071-1084 | priority clamped to 1..8 |
| Mailboxes.Mailbox.Push | kernel/src/ipc/mod.rs:31-39 | appends to the queue, fails exactly when eight messages wait |
| Mailboxes.Mailbox.Pop | kernel/src/ipc/mod.rs:42-50 | takes the first message of the queue |
| StoreLayout.EntryRoundTrip | semantic/src/store.rs:9-35 | an index entry decodes from its 64 bytes as it was |
| StoreLayout.EntryFields | semantic/src/store.rs:184-188 | hash, sector, length, metadata and vector sector at their byte offsets |
| StoreLayout.SuperblockFields | semantic/src/block_manager.rs:94-101 | magic bytes, version 1, frontier and zeros |
| Bytes.LowestFirst | semantic/src/store.rs:184-188 | little-endian: byte i is the i-th digit of base 256 |
| StoreLayout.PutSlotReads | semantic/src/store.rs:166-197 | writing one index entry changes no other |
| StoreCrash.FreshKeepsStore | semantic/src/store.rs:57-108 | writes from the frontier on leave every stored blob as it was |
| StoreCrash.IndexWriteAdds | semantic/src/store.rs:166-197 | the index write adds the new blob and changes no other |
| StoreCrash.CrashAnywhere | semantic/src/store.rs:57-197 | after a crash between any two sector writes nothing is lost, and the new blob is there exactly when all writes were made |
| StoreCrash.CallStaysMounted | semantic/src/store.rs:57-115 | an uninterrupted call leaves the store mounted |
| StoreCrash.InitMounts | semantic/src/block_manager.rs:41-63 | start-up after any crash mounts the store unchanged while the disk is not full |
| StoreCrash.InitSafeIff | semantic/src/block_manager.rs:52-56 | start-up leaves the allocator above every stored sector exactly when the frontier was below the end or nothing is stored |
| StoreCrash.InitInRange | semantic/src/block_manager.rs:41-63 | whatever the superblock says, the allocator starts on a data sector of the disk, where the superblock says if that is one |
| StoreOutcome.PlanOutcome | semantic/src/store.rs:57-115 | the exact condition of success and of each error, from the arguments and the disk, and what becomes of the allocator |
| StoreRuns.StepRefines | semantic/src/store.rs:57-197 | each call, crash or restart refines a step of a map that only grows |
| StoreRuns.NeverOutOfRange | semantic/src/block_manager.rs:66-101 | no call writes outside the disk |
| StoreRuns.AlwaysReady | semantic/src/store.rs:57-197 | on every run the store stays sound |
| StoreRuns.StoredForever | semantic/src/store.rs:57-197 | what is stored under a hash stays so at every later time |
| StoreRuns.FirstStoredStays | semantic/src/store.rs:57-131 | the first blob committed under a hash is what is found ever after |
| StoreRuns.SectorsApart | semantic/src/block_manager.rs:66-74 | sectors of entries lie between 101 and the frontier and are pairwise disjoint |
| StoreRuns.BlankDiskMounts | semantic/src/block_manager.rs:41-63 | the first start on a zeroed disk leaves a mounted store that holds nothing |
| StoreRuns.RetrieveReadsBlob | semantic/src/store.rs:117-131 | on a sound store retrieve returns the data of the blob under the hash |
| StoreRuns.RetrievedEverAfter | semantic/src/store.rs:57-131 | on every run from a zeroed disk, crashes included, the data of a committed request is what retrieve returns ever after |
| StoreFault.AgedReached | semantic/src/block_manager.rs:66-74 | runs from a zeroed disk reach every frontier with the same one blob stored |
| StoreFault.RestartWhenFullLosesData | semantic/src/block_manager.rs:52-56 | a crash in such a run leaves a full store, and a restart and one successful call make the old hash return other bytes |
| StoreDevice.Store.Start | semantic/src/block_manager.rs:41-63 | start-up as the function Init |
| StoreDevice.Store.Allocate | semantic/src/block_manager.rs:66-74 | hands out the frontier and persists the next one |
| StoreDevice.Store.LookupIndex | semantic/src/store.rs:134-164 | the nested loops find the first entry in use for the hash |
| StoreDevice.Store.WriteIndex | semantic/src/store.rs:166-197 | writes the first free entry, or reports a full index |
| StoreDevice.Store.RetrieveBlob | semantic/src/store.rs:117-131 | lookup and copy into the caller's buffer |
| StoreDevice.Store.StoreFull | semantic/src/store.rs:57-115 | makes exactly the sector writes of the plan, in order; succeeds exactly when the hash is known or the data fits a sector, the disk has the sectors needed and the index a free entry; which error otherwise |
| VectorSearch.BestIsUnique | semantic/src/index.rs:165-240 | the list of the first eight in rank order is determined |
| VectorSearch.LetIn | semantic/src/index.rs:214-231 | inserting behind everyone at least as similar keeps the list the best so far |
| VectorSearch.TurnedAway | semantic/src/index.rs:223-223 | a candidate that does not beat the last of a full list is rightly left out |
| VectorSearch.BubbleUp | semantic/src/index.rs:218-222 | the swapping loop puts the newcomer at that place and keeps the others in order |
| VectorSearch.SearchByVector | semantic/src/index.rs:165-240 | the results are the first eight of all vectors at or above the threshold, by falling similarity and then index order |
| VectorSearch.OfferIff | semantic/src/index.rs:184-209 | on a sound store a slot is considered exactly when its blob has a vector at least as similar as asked |
| FatChains.ChainDistinct | kernel/src/fs/fat32.rs:520-527 | a chain that ends in a mark never repeats a cluster |
| FatChains.FindFreeIff | kernel/src/fs/fat32.rs:134-167 | a free cluster is found exactly when one from 3 on exists: the first from the hint on, or the first of all when there is none |
| FatChains.FreeFrom | kernel/src/fs/fat32.rs:869-875 | the freeing loop ends on every table whose entries stay in range, cyclic ones included, and keeps entries in range |
| FatChains.FreesChain | kernel/src/fs/fat32.rs:869-875 | from the first cluster of a chain it frees exactly that chain |
| FatChains.FreesWalk | kernel/src/fs/fat32.rs:869-875 | on any table whose entries stay in range it frees the walk from its start, each cluster once, up to a mark or a cluster already freed |
| FatPartition.AllocKeeps | kernel/src/fs/fat32.rs:134-167 | allocation keeps the partition, the new cluster being a chain of its own |
| FatPartition.LinkKeeps | kernel/src/fs/fat32.rs:719-723 | linking behind the last cluster of a chain keeps the partition |
| FatPartition.Tail | kernel/src/fs/fat32.rs:720-721 | following the table ends at the last cluster of the chain |
| FatPartition.TruncateKeeps | kernel/src/fs/fat32.rs:520-527 | truncation frees all but the first cluster and nothing else |
| FatPartition.UnlinkKeeps | kernel/src/fs/fat32.rs:869-875 | unlinking frees exactly the clusters of the file |
| FatPartition.RunKeeps | kernel/src/fs/fat32.rs:134-167 | after any run every cluster is free or in exactly one chain, and chains are in range, ended and without repetition |
| FatLayout.PutEntryIs | kernel/src/fs/fat32.rs:110-122 | writing one entry on disk changes one entry of the table |
| FatLayout.FatEntryIs | kernel/src/fs/fat32.rs:101-107 | an entry is the four bytes from byte 4c of the table region on, lowest first, without the four highest bits |
| FatLayout.ClustersInOrder | kernel/src/fs/fat32.rs:129-131 | cluster 2 begins at the first data sector, each next one directly behind the one before |
| FatVolume.Fat32.Csec | kernel/src/fs/fat32.rs:68-75 | a read through the cache is the disk sector, and the cache stays coherent |
| FatVolume.Fat32.Wsec | kernel/src/fs/fat32.rs:78-83 | a write through the cache reaches the disk; what a short one leaves behind its end |
| FatVolume.Fat32.Cinval | kernel/src/fs/fat32.rs:86-89 | drops the slot of that sector and no other |
| FatVolume.Fat32.ZeroSector | kernel/src/fs/fat32.rs:142-148 | writing around the cache and dropping the slot keeps it coherent |
| FatVolume.Fat32.FatGet | kernel/src/fs/fat32.rs:101-107 | the entry of the table on the disk |
| FatVolume.Fat32.FatPut | kernel/src/fs/fat32.rs:110-122 | changes that entry only, and no sector outside the table |
| FatVolume.Fat32.AllocCluster | kernel/src/fs/fat32.rs:134-167 | takes the cluster FindFree says, marks and zeroes it, touches nothing else |
| FatVolume.Fat32.FreeChain | kernel/src/fs/fat32.rs:869-875 | the loop on the disk is FreeFrom on the table |
| FatVolume.Fat32.UnlinkChain | kernel/src/fs/fat32.rs:869-875 | the cluster part of unlink |
| FatVolume.Fat32.TruncateChain | kernel/src/fs/fat32.rs:520-527 | the cluster part of opening for writing |
| FatVolume.Fat32.LinkTail | kernel/src/fs/fat32.rs:602-611 | links behind the last cluster of the chain |
| FatVolume.Fat32.ExtendChain | kernel/src/fs/fat32.rs:712-725 | a zeroed cluster that was free is appended to the chain, or the volume is full |
| FatCursor.SeekAligns | kernel/src/fs/fat32.rs:801-820 | after a seek the position is the offset |
| FatCursor.ReadMoves | kernel/src/fs/fat32.rs:686-691 | a read moves the position with the offset, but one ending at the end of a cluster leaves it a cluster behind |
| FatCursor.SequentialIff | kernel/src/fs/fat32.rs:686-691 | after a seek, successive reads stay in place exactly while none ends at the end of a cluster |
| FatFiles.ContentsOnDisk | kernel/src/fs/fat32.rs:129-131 | each byte of the contents of a file is at the byte address that its cluster number gives from the first data sector on, the disk read as one array |
| FatFiles.OpenFile.Seek | kernel/src/fs/fat32.rs:795-822 | fails past the end, otherwise offset and cluster agree, from any earlier position |
| FatFiles.OpenFile.Read | kernel/src/fs/fat32.rs:658-696 | returns the contents from the current position, and where it leaves offset and cluster |
| FatFiles.SeekThenRead | kernel/src/fs/fat32.rs:658-822 | after any history, seek and read give exactly the slice asked for |
| FatFiles.FirstClusterTwice | kernel/src/fs/fat32.rs:688-688 | two reads of one cluster each from the start both return the first cluster |
| Checksum.RfcExample | kernel/src/net/mod.rs:317-327 | the numerical example of section 3 of RFC 1071 |
| Checksum.OddByteIsPadded | kernel/src/net/mod.rs:319-324 | a last odd byte counts as if a zero byte followed it |
| Checksum.OnesSumIs | kernel/src/net/mod.rs:317-327 | adding in 32 bits and folding later is the one's complement sum |
| Checksum.Fold | kernel/src/net/mod.rs:325-326 | folding gives the one's complement word and ends |
| Checksum.SumWords | kernel/src/net/mod.rs:319-324 | the 32-bit accumulator loses nothing |
| Checksum.IpChecksum | kernel/src/net/mod.rs:317-327 | the RFC 1071 checksum of the bytes |
| Checksum.OnesComplementSum | kernel/src/net/mod.rs:330-340 | the same continued from a pseudo-header sum |
| Checksum.TcpChecksum | kernel/src/net/tcp.rs:198-216 | the RFC 1071 checksum of pseudo-header and segment |
| Checksum.Ipv6UpperChecksum | kernel/src/net/mod.rs:343-360 | the RFC 1071 checksum of the IPv6 pseudo-header and data |
| Checksum.ChecksumVerifies | kernel/src/net/mod.rs:317-327 | a checksum put into its zero field makes the whole sum to zero |
| Csprng.QuarterInPlace | kernel/src/csprng.rs:62-69 | the word-by-word updates are the quarter round |
| Csprng.Chacha20Block | kernel/src/csprng.rs:71-89 | the loops compute the block function of RFC 8439 |
| ChachaRfc.QuarterRoundVector | kernel/src/csprng.rs:62-69 | the test vector of section 2.1.1 of RFC 8439 |
| ChachaRfc.XorAt | kernel/src/csprng.rs:64-67 | exclusive or is right in every bit |
| ChachaRfc.DoubleRoundIs | kernel/src/csprng.rs:73-84 | one pass of the loop is a column round and a diagonal round of the four-by-four state |
| ChachaRfc.BlockIs | kernel/src/csprng.rs:71-89 | a block is the state after twenty rounds in turn plus the state, word by word, lowest byte first |
| ChachaRfc.SigmaSpells | kernel/src/csprng.rs:22-24 | the constants spell "expand 32-byte k" |
| ChachaRfc.KeyIsSeed | kernel/src/csprng.rs:213-224 | the key is the seed byte for byte, counter zero, then the nonce |
| ChachaRfc.ReseedFlips | kernel/src/csprng.rs:233-246 | reseeding flips exactly the key bits set in the fresh bytes and moves the nonce on |
| Csprng.BumpCounts | kernel/src/csprng.rs:268-272 | the two-word counter counts modulo 2^64 and nothing else changes |
| Csprng.FillIsKeystream | kernel/src/csprng.rs:263-277 | bytes handed out since seeding are the key stream, block by block |
| Csprng.FillJoins | kernel/src/csprng.rs:263-277 | two requests are one request of the summed length |
| Csprng.AnyChunking | kernel/src/csprng.rs:263-277 | however requests are cut, the output is the beginning of the key stream |
| Csprng.Drbg.constructor | kernel/src/csprng.rs:200-228 | constants, key, counter zero, nonce, nothing buffered |
| Csprng.Drbg.Reseed | kernel/src/csprng.rs:233-246 | mixes the key, advances the nonce, keeps the counter, discards the buffer |
| Csprng.Drbg.FillBytes | kernel/src/csprng.rs:250-280 | fills the buffer with the next bytes of the stream |
| ConfigText.ReadsBack | kernel/src/config.rs:49-111 | entries a line can carry read back, even without the last newline |
| ConfigText.RoundTripIff | kernel/src/config.rs:49-111 | a table reads back exactly when every entry is clean and the text is at most one byte too long |
| ConfigText.LineReads | kernel/src/config.rs:60-80 | any line with an equals sign: key before the first one, value behind it, both cut to their fields, one carriage return ignored |
| ConfigText.JunkLine | kernel/src/config.rs:66-69 | a line gives no entry exactly when it has no equals sign |
| ConfigText.SplitMeans | kernel/src/config.rs:54-58 | lines are the text without its newlines, the last of which may be missing |
| ConfigText.ParseIs | kernel/src/config.rs:49-84 | parsing any text gives the entries of its lines, as many as there is room for |
| ConfigTable.SetThenGet | kernel/src/config.rs:158-199 | a key reads as set, others as before, no key is repeated |
| ConfigTable.RemoveThenGet | kernel/src/config.rs:202-221 | others stay; the key is gone exactly when it was there at most once |
| ConfigTable.AcceptsIff | kernel/src/config.rs:173-199 | a pair is taken exactly when key and value fit and the key is there or the table has room |
| ConfigTable.FlushedTextReadsBackIff | kernel/src/config.rs:173-199 | exactly when the text flushed after a set parses back to the new table |
| ConfigTable.Config.ParseConfig | kernel/src/config.rs:49-84 | the loops over lines give the parsed entries |
| ConfigTable.Config.Serialise | kernel/src/config.rs:90-111 | the buffer holds the text as far as it fits |
| ConfigTable.Config.Get | kernel/src/config.rs:158-169 | the value of the first entry with the key |
| ConfigTable.Config.Set | kernel/src/config.rs:173-199 | updates or appends; fails exactly for long keys or values and full tables |
| ConfigTable.Config.Remove | kernel/src/config.rs:202-221 | shifts the later entries down over the first match |

## Left out

- Device drivers, boot code, MMU and cache registers, TLB and barrier instructions, interrupts: hardware that the source does not show.
- TLS, X.509, DHCP, DNS, ARP, NDP, HTTP and WebSocket: plumbing and simple tables, or external crates.
- The AI runtime, GUI, compositor, shell and font code: foreign calls and user interface.
- Bit positions inside page descriptors: a descriptor is a record of valid, table, frame and permission fields.
- The contents of mapped pages: only pages that serve as tables have contents, so the zeroing of fresh pages shows for tables only.
- VirtualMemory.Vmm.UnmapPages: a space that maps its own table pages is excluded, since the source then frees tables it is still walking; AddressSpace.NewProcessSpace shows that task spaces are not of that kind.
- VirtualMemory.Vmm.UnmapOnePage: the same exclusion, for one page.
- TCP handshake, listening, reset and the closing states; FIN segments are outside the run conditions because they advance the receive sequence without an order check.
- SYN options: the segment size is a parameter of at most 1460.
- TcpNetwork.RunSound: requires under 2^32 bytes per direction, acknowledgements within the bytes in flight and no zero-window probe over data in flight, because the code does not keep alignment outside these.
- TcpConnection.TcpConn.TcpWrite: writing in CloseWait is a closing state and is not modelled.
- TcpConnection.TcpConn.TcpHandleSegment: takes segments with the ACK flag alone.
- TcpConnection.TcpConn.constructor: the scalar fields of a connection are one record field, updated field by field.
- TcpTimers.GivesUp: until the 32-bit tick count wraps, since the source compares deadlines as plain numbers.
- TcpTimers.ClosedWindowProbed: the same, and with nothing in flight; TcpTimers.BothTimers says what a tick does when both timers are due.
- SchedulerExit.FirstWaitGetsCode: task numbers are unique, which SchedulerWakeups.RunKeeps shows of every run.
- Scheduler stack pages, saved registers, capabilities, syscall filters and signal numbers: a task is its number, state, priority, ticks, pin, wait, mailbox and exit code.
- SchedulerTable.TaskTable.SpawnTask: a full table is the only failure; a lack of stack pages is not modelled.
- SchedulerTable.TaskTable.Exit: the exit code written into a waiter's saved register is not modelled.
- SchedulerTable.TaskTable.Wait: the release of a reaped task's stack pages is not modelled.
- SchedulerTable.TaskTable.Signal: pending bits and the refusal of signal numbers from 32 on are not modelled.
- Mailboxes.Mailbox.Push: the ring is refined to a queue of at most eight messages, and the scheduler model holds each mailbox as such a queue, not as a ring object inside the task.
- SchedulerSmp.RunExclusive: without yield, receive, wait, exit and kill, which give up a CPU before the next tick; SchedulerSwitch.TakenTwiceIff says what can then happen.
- SchedulerFairness.BoundedWaiting: one CPU schedules, as the bound is about one CPU's ticks; without the premise on pinned tasks it is false by SchedulerFairness.StarvesIff.
- Search by tag and by content type, the FNV hash, cosine similarity in floating point: hashes and similarities are parameters.
- StoreDevice.Store.StoreFull: the hash and the encoded metadata and vector bytes are parameters.
- StoreDevice.Store.RetrieveBlob: for the index of a sound store; entries with sectors off the disk or lengths over a sector are excluded, and StoreRuns.AlwaysReady shows that no run makes them.
- VectorSearch.SearchByVector: vectors lie on the disk, which StoreRuns.SectorsApart shows of every run.
- FAT32 boot sector parsing, directories, long names, create, rename and write of data: only the cluster part of writing, truncating and unlinking is modelled.
- FatChains.FreeFrom: table entries stay within the table, since others would read sectors that are not table.
- FatChains.FreesWalk: the same condition on the table.
- FatVolume.Fat32.FreeChain: the same condition on the table.
- FatVolume.Fat32.UnlinkChain: the same condition on the table.
- FatVolume.Fat32.TruncateChain: the same condition on the table.
- FatFiles.OpenFile.Seek: the chain of the file covers its size.
- FatFiles.OpenFile.Read: the chain of the file covers its size.
- Checksum.SumWords: for up to 65535 bytes, more than any frame the kernel sends.
- Csprng.Drbg.FillBytes: the output before seeding and the entropy sources are not modelled.
- ConfigTable.FlushedTextReadsBackIff: says nothing of the file between flushing and the next start. The file is made by `create`, which writes the first cluster's bytes in another order (kernel/src/fs/fat32.rs:630-633) than directory scans read them (kernel/src/fs/fat32.rs:411-413), so what is opened later may be another cluster.
- ConfigTable.Config.Get: keys are compared as bytes; invalid UTF-8, which the source reads as an empty string, is not modelled.
- ConfigTable.Config.Set: the same for keys, and the flush is the text that Serialise gives.
- ConfigTable.Config.Remove: the same for keys, and the flush is the text that Serialise gives.
