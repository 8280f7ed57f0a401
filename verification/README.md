# Akari, modelled and verified

Akari is a small microkernel with its drivers. This project states in Dafny what five of its parts do, and proves
what they promise. `dafny verify dfyconfig.toml` checks all of it.

1. **Scheduling and blocking calls.** `Machine.dfy` is the kernel as a state machine: one value for the task ring, the
   priority list, the waiting flags, the parked calls, the reply queues and the timer, and one function for every way
   into the kernel. Interrupts are off inside the kernel, so each way in is one step. `Safety.dfy` has the invariant
   and proves that every step keeps it; `Runs.dfy`, `Interrupts.dfy`, `Turns.dfy` and `Sleeps.dfy` draw the
   conclusions over whole runs, and `Calls.dfy` has what each call gives and does, on the fields of the tasks alone.
   `Kernel.dfy` has the same operations as the source writes them, on linked tasks with pointers and flags, and proves
   each equal to its step of the machine. `Timer.dfy` is the queue of wake-up events.
2. **Heap.** `OrderedArray.dfy` is the array kept in order in place, `Layout.dfy` what it means that entries tile an
   area, `Heap.dfy` the allocator, and `HeapRuns.dfy` what holds over every run of it.
3. **Storage.** `Ata.dfy` reads and writes bytes by way of whole sectors, `Prd.dfy` builds the DMA region table,
   `Fat.dfy` follows cluster chains, and `FatDir.dfy` walks directories in two ways.
4. **Address spaces.** `Memory.dfy` has frames and page tables, `Elf.dfy` the image loader, `CoreRuns.dfy` and
   `CoreDump.dfy` the core dumper, whose file is then read back by way of the loader's own definitions.
5. **Streams and the library.** `Streams.dfy`, `LinkedList.dfy`, `Numbers.dfy` and `Strings.dfy`; `Bytes.dfy` and
   `Base.dfy` hold what the others share.

A class has the source's fields and changes them step by step. Its methods are proved against a value-level
specification, and the theorems are about that specification, for every input, every run or every reachable state.

Where the code does not do what one might expect, the code is modelled as it is, and what it does then is
proved, by an exact condition or an input that shows it:

- The timer always queues at the back, whatever position its search finds. So a sleep is never too short, wakes in
  the order of the calls, and has the requested length exactly when all pending time fits in it
  (`Timers.SleepLength`).
- `probeQueue`, which takes any item, is woken only by items that answer number 0 (`Runs.SendWakes`,
  `Runs.ProbeMissesReply`).
- Appending a task that is already on the priority list drops what stood behind it, so an interrupt leaves out listeners
  that it hit and that can run, exactly those in front of the first listed one in the ring (`Interrupts.IrqLeavesOut`,
  `Interrupts.ListenerDropped`). No task is lost by it: each stays in the ring and gets its turn (`Turns.TurnComes`). An
  interrupt enters its listener out of turn, so the bound counts interrupts, and must (`Turns.InterruptsStarve`).
- A merging free can leave the heap's index unsorted (`Heaps.FreeSortedIff`, `Heaps.MergeUnsorts`), so the tiling of
  the area is proved without sortedness, and best fit with it (`Heaps.BestFit`). A request for zero bytes breaks the
  tiling, and so does one for an aligned block of 2^31 bytes or more, which takes a hole that it does not fit in
  (`Heaps.AllocKeepsIff`).
- The FAT driver counts in sectors of the volume and reads in sectors of 512 bytes, so it finds the right place only if
  the two agree (`Fat.Volume.EntryMeetsFormat`, `Fat.Volume.DataMeetsFormat`).
- A listed file name is cut to 127 characters and then no longer finds its file (`FatDirs.ListedIsFound`).
- The core file's header count has 16 bits (`CoreDump.HeadersCounted`, `CoreDump.CrowdedMiscounted`), and the ids of a
  stream's readers and writers repeat after 2^32 of them (`Streams.IdsRepeat`, `Streams.SameIdTwice`).
- A stream listener remembers one waiting reader, which a second one displaces (`Streams.ParkingIsSafe`). The first is
  then never woken, unless another listener is still hooked to it, for hooks are not taken off
  (`Streams.DisplacedIsLost`). If one is, both readers are woken, and the one that runs second panics if nothing is
  left for it (`Streams.StaleHookPanics`, `Streams.SecondResumes`).
- A printed field may be at most 10 decimal or 8 hexadecimal digits wide before the power search overflows; beyond
  that it prints something else or divides by zero (`Numbers.Format`). Blanks in front of a number make it read as zero
  (`Numbers.PrintThenRead`).

## Model

| member | source | states |
|---|---|---|
| Safety.StepOk | src/Tasks.cpp:94-171 | every atomic entry into the kernel runs without a scheduler panic and keeps the whole invariant; the one exception, exactly, is a send to a task that is not in the ring |
| Safety.NextOk | src/Tasks.cpp:94-124 | the search for a next task always succeeds, with a live task that does not wait, and does not give the caller back when the caller waits or is not idle |
| Safety.SwitchOk | src/Tasks.cpp:156-168 | entering such a task never meets its own waiting flag and never blocks again in the parked call |
| Safety.IrqOk | src/Descriptor.cpp:200-230 | an interrupt keeps the invariant, whoever it releases and switches to |
| Safety.ExitOk | src/UserCalls.cpp:163-193 | the running task can end: a next task exists and differs from it, the invariant holds without it, and the exception path, which makes no such test, does exactly the same |
| Safety.SleepOk | src/UserProcess.cpp:97-123 | a sleeping call keeps the invariant, its wake-up event queued under the id that it is parked with |
| Safety.BeginOk | src/UserProcess.cpp:85-92 | putting a fresh task in front of the ring keeps the invariant |
| Runs.BootOk | src/entry.cpp:152-214 | the ring as it is at boot satisfies the invariant |
| Runs.RunOk | src/interrupts.cpp:68-89 | every allowed run keeps the invariant and can end in no panic but that of a send to a dead task |
| Runs.SchedulerIsSafe | src/Syscall.cpp:88-95 | from boot on, in every reachable state, the priority list is free of duplicates, holds live tasks that do not wait and never the running one, and the running task is live and in no call |
| Runs.NoWakeUpIsLost | src/UserIPCQueue.cpp:44-87 | in every reachable state a blocked task waits for something that has not happened: no pending interrupt, no item with its reply number, a live process, a queued timer event |
| Runs.SendWakes | src/UserIPCQueue.cpp:132-137 | a send wakes a blocked probe exactly when it carries the number probed for; a probe for any item stays blocked although an item is there exactly for sends that carry a number; nothing else changes |
| Runs.ProbeMissesReply | src/UserIPCQueue.cpp:93-137 | a run from boot that leaves a task blocked in probeQueue with an item in its queue |
| Runs.EndingReleases | src/UserCalls.cpp:172-190 | ending takes the task out of the ring and releases exactly the tasks that wait for it |
| Runs.BystanderOk | src/Tasks.cpp:292-304 | whatever the running task or an interrupt does, any other task only gains items, hits and its release, and is entered with its parked call performed once |
| Calls.SendDelivers | src/UserIPCQueue.cpp:132-137 | every receiver in the ring, blocked or not, the sender included, gets the item at the back of its queue under the next number; it is released exactly if it is blocked in a probe for that number to answer, and no other field of any task changes |
| Calls.ProbeGives | src/UserIPCQueue.cpp:44-103 | a probe returns the id of the oldest item that answers, leaves it queued, and changes nothing else |
| Calls.ProbeFindsNone | src/UserIPCQueue.cpp:77-103 | if no item answers, the probe that may not block returns nothing and the other one parks its caller |
| Calls.IrqWaitGives | src/UserCalls.cpp:50-93 | waiting for an interrupt takes exactly one pending hit, or parks the caller if there is none |
| Calls.WaitForGives | src/UserIPC.cpp:75-85 | waiting for a process that is not in the ring returns 0 at once; for one that is, the caller is parked |
| Calls.SleepGives | src/UserProcess.cpp:111-123 | the event goes behind the others, for the caller, under the next id, which the caller is parked with |
| Calls.ListenGives | src/UserCalls.cpp:109-114 | listening drops the hits of before |
| Calls.CheckGives | src/UserCalls.cpp:116-121 | checking takes one hit and says so, or says that there is none |
| Calls.ShiftTakes | src/UserIPCQueue.cpp:127-130 | of several items with the id the oldest goes, and the others keep their order |
| Calls.BeginGives | src/UserProcess.cpp:85-92 | the new task is in front of the ring with nothing pending, and of the others only its parent learns of it |
| Calls.BootGives | src/entry.cpp:152-214 | at boot no task has anything pending, the first one runs, and no message or event has been numbered |
| Calls.IrqHits | src/Descriptor.cpp:200-230 | an interrupt is counted once for each task that listens to it, whatever call that task is in, and releases exactly those that wait for one |
| Calls.ResumedGives | src/Tasks.cpp:156-168 | a parked call that is performed again gives the same answers as one that did not have to block |
| Calls.EnteredAnswers | src/Tasks.cpp:156-168 | whatever step enters a task, its parked call has given its answer: the oldest item that answers, one hit, or 0 |
| Calls.YieldGives | src/Syscall.cpp:88-132 | leaving a call changes no task but the one entered, and takes the head off the priority list |
| Calls.TickGives | src/entry.cpp:234-240 | a tick releases exactly the task whose event is due, and changes no other but the one entered |
| Calls.EndGives | src/UserCalls.cpp:163-193 | ending leaves the other tasks in the ring in order, releases exactly those that wait for the one ended, and changes no other but the one entered |
| Interrupts.IrqJoins | src/Descriptor.cpp:200-216 | if no listener that can run is on the priority list yet, an interrupt puts all of them there, in ring order, behind those that are |
| Interrupts.IrqCuts | src/Descriptor.cpp:200-216 | otherwise it ends the list behind the first of them that is on it, and puts there those that stand behind that one in the ring |
| Interrupts.IrqLeavesOut | src/Descriptor.cpp:208-214 | so a listener that can run is left off the list exactly when it stands in front of that one in the ring, and any other task exactly when it did not stand in front of that one on the list |
| Interrupts.ListenerDropped | src/Descriptor.cpp:208-214 | a run from boot after which an interrupt leaves the interrupted task, which can run and has two hits pending, neither entered nor listed |
| Turns.TickFrame | src/entry.cpp:234-240 | a tick enters the head of the priority list if there is one, and makes nobody wait |
| Turns.RoundRobin | src/Tasks.cpp:104-119 | without priorities the next task is the first runnable one behind the current in ring order |
| Turns.StepNears | src/Tasks.cpp:94-128 | whatever happens short of an interrupt, a task that can run stays able to run, and either is entered or comes strictly nearer to its turn with every change of hands; only a new task can put it back, by one place |
| Turns.TurnComes | src/Tasks.cpp:90-128 | in every run, whatever the tasks call, a task that can run becomes the current one before the processor has changed hands more often than there are members of list and ring and new tasks, and twice as many as are in the ring for each interrupt |
| Turns.TurnWithinTicks | src/Tasks.cpp:90-128 | so under timer ticks alone it becomes the current one within as many ticks as there are members of list and ring |
| Turns.InterruptsStarve | src/Descriptor.cpp:200-230 | without the count of interrupts there is no bound: a run of any length in which each interrupt enters its listener again and a third task that can run gets no turn |
| Turns.StarvingReached | src/UserCalls.cpp:109-114 | that run starts from a state one call after boot |
| Turns.EnteredWithGains | src/Tasks.cpp:156-168 | in every run, interrupts included, a task is first entered with everything that it has gained, its parked call performed once |
| Turns.ReplyIsDelivered | src/UserIPCQueue.cpp:44-87 | in every run after a reply to a blocked task, whenever that task is first entered its probe returns the id that the sender got, with the item still queued behind the older ones; and it is entered within the bound above |
| Sleeps.SleepEndsOnTime | src/UserProcess.cpp:97-123 | in every run of the machine a task in a sleep is still in it exactly while there have been fewer ticks than its event and those in front of it take |
| Sleeps.NanosleepIsNeverEarly | src/UserProcess.cpp:111-123 | a call to sleep parks its caller, and in no run is it released before the ticks add up to the time asked for |
| Sleeps.SleeperReturns | src/Timer.cpp:52-65 | the tick on which its event is due enters it, or it is entered within the bound of its turn |
| Kernel.Tasks.constructor | src/entry.cpp:152-214 | tasks linked in order with empty flags are the boot state |
| Kernel.Tasks.PrepareFetchNextTask | src/Tasks.cpp:94-124 | the pointer walk over ring and priority list yields the next task of the specification; the walk ends because some task is runnable |
| Kernel.Tasks.SwitchTo | src/Tasks.cpp:141-171 | the field updates of a task switch are the specified one, whose panics are unreachable |
| Kernel.Tasks.Tick | src/entry.cpp:234-240 | a timer interrupt on the linked structures is the machine's tick, and leaves them well linked |
| Kernel.Tasks.AppendPriority | src/Descriptor.cpp:208-214 | following the links and storing at the end gives the specified list, cut short when the task was on it |
| Kernel.Tasks.CallHandler | src/Descriptor.cpp:200-230 | the walk over the ring counts a hit for every listener, releases those that wait, queues those that can run and enters the first of them, as the machine does |
| Kernel.Tasks.ReturnToNextTask | src/Syscall.cpp:88-132 | leaving a call switches as specified, and the next task is never the caller |
| Kernel.Tasks.IrqWaitCall | src/UserCalls.cpp:50-93 | consumes a pending hit or parks the caller and leaves, as the machine does; ring, lists and flags stay consistent |
| Kernel.Tasks.WaitProcessCall | src/UserIPC.cpp:75-85 | returns at once for a process that is gone and parks the caller otherwise, as the machine does |
| Kernel.Tasks.ProbeQueueCall | src/UserIPCQueue.cpp:77-103 | returns the first item that answers, or parks or returns empty-handed, as the machine does; the queue is left alone |
| Kernel.Tasks.Defer | src/UserCalls.cpp:195-197 | leaves the caller runnable and enters the machine's next task |
| Kernel.Tasks.Nanosleep | src/UserProcess.cpp:111-123 | queues one event behind all others and parks the caller under its id, as the machine does |
| Kernel.Tasks.IrqListen | src/UserCalls.cpp:109-114 | listening starts with no pending hits, and only the caller changes |
| Kernel.Tasks.IrqCheck | src/UserCalls.cpp:116-121 | takes one pending hit if there is one, and only the caller changes |
| Kernel.Tasks.RemoveById | src/UserIPCQueue.cpp:127-130 | removes the first item of that id and no other |
| Kernel.Tasks.ShiftQueue | src/UserIPCQueue.cpp:127-130 | only the caller's queue changes, by that one item |
| Kernel.Tasks.SendQueue | src/UserIPCQueue.cpp:132-137 | queues the item under the next number and releases the receiver if it probes for exactly that reply, as the machine does; a receiver that is not in the ring is the machine's panic, and no other call is |
| Kernel.Tasks.ReleaseWaiters | src/UserCalls.cpp:172-181 | the walk over the ring releases exactly the waiters of the running task |
| Kernel.Tasks.UnlinkCurrent | src/UserCalls.cpp:185-190 | the scanner pointer takes the running task, and only it, out of the links |
| Kernel.Tasks.SysExit | src/UserCalls.cpp:163-193 | releases the waiters, leaves for the next task and unlinks the caller, on pointers, as the machine's exit does |
| Kernel.Tasks.KillCurrent | src/interrupts.cpp:68-89 | the copy of that code in the exception handler has the same effect |
| Kernel.Tasks.BeginExecution | src/UserProcess.cpp:85-92 | the task becomes the first of the ring; the order of the others stays |
| Timers.TicksIsCeiling | src/Timer.cpp:58-63 | an event of a given length takes the ceiling of length over tick, and at least one tick |
| Timers.SleepLength | src/Timer.cpp:67-87 | a new event is due no earlier than asked, and exactly then if and only if all pending time together fits in the request |
| Timers.SleepDue | src/Timer.cpp:67-87 | the exact time a new event is due: what was asked for, and the times of all events from the first that is not due by then |
| Timers.DeschedIs | src/Timer.cpp:89-101 | removing an event leaves all others in order, and only the one behind it gains its time |
| Timers.WakeTime | src/Timer.cpp:52-101 | over any run of ticks, sleeps and removals of others, an event pops after exactly its own and its predecessors' ticks if nothing is removed, never after more, and never before its time |
| Timers.SleepIsNeverEarly | src/Timer.cpp:52-101 | a sleep that has ended has lasted at least as long as asked, in every run that does not remove it |
| Timers.DeschedKeeps | src/Timer.cpp:89-101 | removing another event leaves an event's time to go unchanged and never raises its ticks to go |
| Timers.FirstComeFirstServed | src/Timer.cpp:52-87 | without removals the tasks woken, followed by those still asleep, are those asleep before, followed by the new ones in order |
| Timers.ShortSleepWaitsForLong | src/Timer.cpp:77-86 | an input for which the order of waking is not that of the deadlines: 100 microseconds queued behind 1000 are due after 1100 |
| Timers.Timer.TickOnce | src/Timer.cpp:52-65 | one tick fires at most the head event, and reports its task; the counters wrap at 32 bits |
| Timers.Timer.WakeIn | src/Timer.cpp:67-87 | one event is added at the back under a new id that is not 0, with the time that the search leaves; no sum overflows |
| Timers.Timer.DeschedOnce | src/Timer.cpp:89-101 | the first event of that id is taken out and its time given to the one behind it; reports whether it was there |
| OrderedArrays.InsertedOk | src/inc/OrderedArray.hpp:64-82 | insertion adds one element to the contents and keeps them sorted, for every strict weak order |
| OrderedArrays.RemovedOk | src/inc/OrderedArray.hpp:84-90 | removal takes out one element and keeps the rest sorted |
| OrderedArrays.RemoveUndoesInsert | src/inc/OrderedArray.hpp:64-90 | removing what was inserted gives the array back, so the other elements keep their order |
| OrderedArrays.OrderedArray.Insert | src/inc/OrderedArray.hpp:64-82 | shifting in place puts the element before the first one that is not less; a full array refuses |
| OrderedArrays.OrderedArray.Remove | src/inc/OrderedArray.hpp:84-90 | shifting in place closes the gap and changes nothing else |
| Heaps.AllocOk | src/Heap.cpp:40-102 | a request that finds a hole gives a block of its size inside the area, disjoint from every other, on a page boundary if asked; all other blocks stay, the entries still tile the area with no two holes side by side, and a sorted index stays sorted |
| Heaps.AllocKeepsIff | src/Heap.cpp:40-102 | a request that has found a hole keeps the tiling exactly when it is for at least one byte and less than 2^31: the signed test takes a larger aligned request for a negative number |
| Heaps.BestFit | src/Heap.cpp:170-212 | in a sorted index the chosen hole is the smallest that passes the test, for aligned blocks too |
| Heaps.ServedIff | src/Heap.cpp:170-212 | a request is refused exactly if no hole holds a place for it, at a page boundary if asked, that it fits behind; otherwise it gets the lowest such place of the first hole that has one (aligned requests below 2^31) |
| Heaps.WasteIsLeast | src/Heap.cpp:198-202 | the waste leads to the least page boundary that is not below the start of the hole |
| Heaps.SmallestServes | src/Heap.cpp:170-212 | in a sorted index no smaller hole has such a place |
| Heaps.LargeTakes | src/Heap.cpp:204-207 | aligned requests of 2^31 bytes and more pass the signed test exactly if they and the waste exceed the hole by at most 2^32 |
| Heaps.Heap.DataStartIs | src/Heap.cpp:30-33 | the area starts at the least page boundary behind the index, or one page later exactly if that boundary is the end of the index and no multiple of 64 KiB |
| Heaps.FreeOk | src/Heap.cpp:122-148 | freeing removes exactly that block, merges it so that no two holes are neighbours, and does nothing to an entry that is a hole already |
| Heaps.FreeSortedIff | src/Heap.cpp:122-148 | a free keeps a sorted index sorted exactly when every entry that stays behind the surviving one is at least as large as what the freed entry and its neighbouring holes make together |
| Heaps.MergeUnsorts | src/Heap.cpp:132-145 | a sorted index of three entries that a merging free leaves unsorted |
| Heaps.Heap.constructor | src/Heap.cpp:22-38 | the area behind the index becomes one hole; a start on a page boundary whose low 16 bits are not zero is still moved up a page |
| Heaps.Heap.SmallestHole | src/Heap.cpp:170-187 | the linear search finds the first hole that fits, in index order |
| Heaps.Heap.SmallestAlignedHole | src/Heap.cpp:189-212 | so does the search with page waste and its signed test, for every request |
| Heaps.Heap.Alloc | src/Heap.cpp:40-62 | the entries become those of the hole cut up, block first in the hole; the heap stays valid for positive sizes, and no hole or a full index is reported |
| Heaps.Heap.AllocAligned | src/Heap.cpp:64-102 | the same behind page waste, which becomes a hole of its own; the heap stays valid for sizes from 1 to below 2^31 |
| Heaps.Heap.Free | src/Heap.cpp:122-148 | the first entry at that address becomes a hole, merged to the left and then to the right; an unknown address changes nothing; the heap stays valid |
| HeapRuns.AlwaysTiles | src/Heap.cpp:22-148 | over every run of frees and of requests for at least one byte, aligned ones below 2^31, the entries tile the area, no two holes side by side |
| HeapRuns.AllocLive | src/Heap.cpp:40-102 | a request adds exactly one block, in a hole that has room for it, or changes nothing if none has |
| HeapRuns.FreeLive | src/Heap.cpp:122-148 | a free takes away exactly the block that starts there, if there is one |
| HeapRuns.BlockStays | src/Heap.cpp:40-148 | over every such run a block stays as it is until its own start is freed |
| HeapRuns.BlocksApart | src/Heap.cpp:40-148 | over every such run two blocks never overlap and lie inside the area |
| Ata.Drive.ReadSectors | src/packages/ata/main.cpp:104-148 | a read of any number of sectors, split into commands of at most 256 for an 8-bit count, gives exactly those sectors |
| Ata.Drive.WriteSectors | src/packages/ata/main.cpp:235-246 | so does a write, changing no other sector |
| Ata.Drive.ReadData | src/packages/ata/main.cpp:150-189 | a read gives exactly the requested bytes, for every alignment and length |
| Ata.Drive.WriteData | src/packages/ata/main.cpp:192-233 | a write changes exactly the requested bytes of the disk |
| Ata.Drive.WriteThenRead | src/packages/ata/main.cpp:150-233 | a read of any range after a write of any other gives the written bytes where the two overlap and the old ones elsewhere; a read of the written range gives back what was written |
| Prd.RegionsOk | src/packages/ata/mindrvr.cpp:1317-1342 | the regions of a transfer adjoin, add up to its length, and each is non-empty and inside one 64 KiB page |
| Prd.RegionCount | src/packages/ata/mindrvr.cpp:1317-1342 | their number is that of the 64 KiB pages touched, hence at most length / 65536 + 2 |
| Prd.TransferFits | src/packages/ata/mindrvr.cpp:1218-1224 | up to the maximal transfer size the table never overflows |
| Prd.FieldRoundTrip | src/packages/ata/mindrvr.cpp:1309-1338 | the count word gives back size and end mark, zero meaning 65536 |
| Prd.FieldBits | src/packages/ata/mindrvr.cpp:1309-1338 | the low 16 bits are the count modulo 65536, bit 31 is the end mark, and the others are zero |
| Prd.Dma.SetUpXfer | src/packages/ata/mindrvr.cpp:1289-1350 | the loop fails exactly when there are more regions than entries, and otherwise writes them in order, only the last one marked |
| Prd.TablePlacement | src/packages/ata/mindrvr.cpp:1248-1271 | the table is aligned to 8, lies inside its buffer and does not cross a 64 KiB boundary, wherever the buffer is |
| Prd.TableChosen | src/packages/ata/mindrvr.cpp:1254-1261 | it is at the multiple of 8 that lies 8 to 15 bytes into the buffer, unless it would cross there; then it is at the boundary |
| Fat.Volume.EntryMeetsFormat | src/packages/fat/main.cpp:326-345 | the entry looked up is, on every disk, the 28-bit word at four times the cluster number in the first FAT, as in the section "FAT Data Structure" of the Microsoft FAT32 File System Specification, exactly when sectors have 512 bytes or the sector looked at is 0 |
| Fat.Volume.DataMeetsFormat | src/packages/fat/main.cpp:224-231 | a cluster is read from its place on the volume exactly then too |
| Fat.Volume.ReadIsSlice | src/packages/fat/main.cpp:255-324 | the read goes on in the cluster that the entry names: it gives the slice of the concatenated clusters from offset, cut at the end of the last one if its entry marks the end of the file, and is a panic if it needs more and that entry is 0, 1 or 0x0ffffff0 to 0x0ffffff7 |
| Fat.Volume.Follows | src/packages/fat/main.cpp:274-318 | from every cluster of every table there is such a list of clusters that decides the read, cyclic tables included |
| Fat.Driver.ReadFatCluster | src/packages/fat/main.cpp:211-222 | the cache never shows in the result |
| Fat.Driver.EntryFor | src/packages/fat/main.cpp:326-345 | the cached lookup gives the table's entry for every cluster number |
| Fat.Driver.ReadData | src/packages/fat/main.cpp:255-324 | copies exactly the bytes of the specified read to the front of the buffer, reports their number, or panics as it does; it ends for every table content, cyclic chains included |
| FatDirs.Directory.Readdir | src/packages/fat/main.cpp:351-439 | gives the entry of that number in the list of all files of the chain, shifted by two in the root |
| FatDirs.Directory.Finddir | src/packages/fat/main.cpp:441-523 | gives the first file of that name in the same list, or none, or the panic that the chain ends in; a match of 128 characters or more overruns the name field |
| FatDirs.FilesAre | src/packages/fat/main.cpp:379-425 | the files of a directory are, in order, its records in front of the first of their cluster that begins with 0, without those that begin with 0xe5, those with attributes 0x0f and those with bit 3 of them set; inode, kind and size are at their bytes, and the name is the parts since the last file, later ones in front |
| FatDirs.ListedGives | src/packages/fat/main.cpp:361-377 | what the listing gives at each place: the two names of the root, a file with its name cut to 127 characters, or what the last entry of the chain means |
| FatDirs.NamedGives | src/packages/fat/main.cpp:448-520 | what the lookup gives for each name: a name of the root, the first file of that name with all its fields, the overrun, or what the last entry means |
| FatDirs.FoundIsListed | src/packages/fat/main.cpp:351-523 | whatever is found by name is listed, with the same inode, under its whole name |
| FatDirs.ListedIsFound | src/packages/fat/main.cpp:351-523 | looking up the listed name of a file leads back to it exactly when the name was not cut, the first file of that name is no different, and it is not one of the root's own two names |
| Memory.FrameMap.SetFrame | src/Memory.cpp:185-190 | marks one frame and no other |
| Memory.FrameMap.ClearFrame | src/Memory.cpp:192-197 | clears one frame and no other |
| Memory.FrameMap.FreeFrame | src/Memory.cpp:206-216 | finds the lowest free frame, and none exactly when all are in use |
| Memory.PageDirectory.GetPage | src/Memory.cpp:286-300 | finds the slot of an address, making a table that maps nothing if asked, and changes no mapping |
| Elf.Loader.AllocAnyFrame | src/Memory.cpp:220-229 | maps an unmapped page, and only it, to a frame that was free; a mapped page is refused |
| Elf.FilledHolds | src/ELF.cpp:86-111 | filling the page of the next chunk puts its bytes in place for every page offset, and disturbs nothing seen before |
| Elf.HeaderReads | src/ELF.cpp:28-78 | a file laid out as the format has it is read so: magic number, entry, header count, place of each header, and its type, offset, address and two sizes, each from its own field |
| Elf.Loader.CopyChunk | src/ELF.cpp:111-133 | whichever case applies, the chunk becomes file bytes and then zeros; sizes the wrong way round are the panic |
| Elf.Loader.LoadSegment | src/ELF.cpp:76-136 | a loaded segment reads, through the page table, as file bytes below the file size and zeros up to the memory size; exactly its pages are newly mapped, each for one frame that was free; it fails exactly when a page was mapped before, the sizes are in the wrong order, or fewer frames were free than it has pages |
| Elf.Loader.LoadImageInto | src/ELF.cpp:28-152 | the same for a whole image: it loads exactly when it has the magic number, no page is mapped or shared, the sizes are in order, and at least as many frames are free as its segments have pages; nothing that was mapped changes |
| Elf.LoadedByte | src/ELF.cpp:86-133 | at every address of a loaded segment the task sees the byte of the file, or zero behind its file part |
| CoreRuns.RunsExact | src/Tasks.cpp:316-351 | the run list is exactly the set of maximal runs of present pages in the tables that are not the kernel's |
| CoreRuns.RunsAscend | src/Tasks.cpp:321-351 | the runs ascend and do not overlap |
| CoreRuns.RunsCount | src/Tasks.cpp:320-351 | the pages counted are the lengths of the runs added up |
| CoreRuns.ScanRuns | src/Tasks.cpp:316-351 | the three-way scan computes run list, run count and page count |
| CoreDump.BuildNotes | src/Tasks.cpp:359-460 | for structures of any size the two notes fill the size computed beforehand, so that the assertion holds, and stand aligned with name and content |
| CoreDump.DumpElfCore | src/Tasks.cpp:462-547 | the file has exactly the computed size and holds ELF header, note header, one header for each run, notes and the pages of every run, each at the offset its header gives |
| CoreDump.HeadIs | src/Tasks.cpp:468-516 | every field of the file header and of the note header has its value at its place in the format |
| CoreDump.NoteReads | src/Tasks.cpp:400-434 | a note reads as name size 5, description size, kind, the name CORE with its zero, and the description |
| CoreDump.DumpReads | src/Tasks.cpp:519-542 | header 1 + j, read the way the loader reads it, is run j, and its file range holds that run's pages |
| CoreDump.HeadersCounted | src/Tasks.cpp:493 | the 16-bit header count is right exactly when there are fewer than 65535 runs |
| CoreDump.CrowdedMiscounted | src/Tasks.cpp:493 | a task with 65536 runs, of whose dump the reader sees none |
| CoreDump.DumpIsFaithful | src/Tasks.cpp:519-542 | every byte of every present page of the task is in the file, in a segment that covers its address |
| CoreDump.DumpIsLoadable | src/ELF.cpp:74-144 | the loader accepts the file wherever the dumped pages are free: no two of its segments share a page |
| CoreDump.DumpThenLoad | src/ELF.cpp:74-144 | a task that has loaded the file sees, at every dumped address, the byte that the dumped task saw |
| Streams.Conserved | src/Tasks.cpp:582-654 | over any interleaving the bytes that a listener's readers got, followed by those still buffered, are those buffered before, followed by all bytes written since |
| Streams.ConservedSinceRegistration | src/Tasks.cpp:568-572 | counted from its registration that is exactly what was written |
| Streams.WriterGiven | src/Tasks.cpp:552-566 | a writer is refused exactly if the stream is exclusive, or if it asks to be and is not the first; a second ordinary one is admitted, under the next id |
| Streams.WriteGiven | src/UserIPC.cpp:302-309 | a registered writer's bytes are accepted whole and reach every listener, and wake exactly the tasks that some listener is hooked to |
| Streams.ReadGiven | src/UserIPC.cpp:251-291 | a read gives n bytes from the front or all there are, which leave that listener and no other; on an empty one it gives none, or parks the caller and hooks it |
| Streams.ResumeGiven | src/UserIPC.cpp:251-269 | a woken call is given bytes as if it were made now, and only its task stops waiting |
| Streams.ExclusiveForever | src/Tasks.cpp:552-566 | once a writer is exclusive it stays the only writer: no other is registered and no other's write is accepted |
| Streams.IdsRepeat | src/Tasks.cpp:672-674 | two registrations get the same id exactly when a multiple of 2^32 lies between them |
| Streams.SameIdTwice | src/Tasks.cpp:672-674 | a run that gives one id to two listeners |
| Streams.ParkingIsSafe | src/UserIPC.cpp:283-291 | parking a reader leaves every parked reader hooked or with something to read exactly when no other task waits on that listener |
| Streams.ReadersAreServed | src/UserIPC.cpp:251-269 | in every run in which a listener has one reader at a time, a parked reader's listener is empty and hooked to it, and a resumed read is given something |
| Streams.FreshReadersAreServed | src/UserIPC.cpp:251-296 | so it is in every such run from a fresh stream on |
| Streams.DisplacedIsLost | src/UserIPC.cpp:283-291 | a reader that a later one displaces from the hook waits for ever, whatever happens, exactly when no other listener has been left hooked to it |
| Streams.StaleHookPanics | src/Tasks.cpp:656-658 | a run in which a displaced reader is woken through the hook that an earlier wait left behind, and its resumed call is the panic of blocking twice |
| Streams.SecondResumes | src/UserIPC.cpp:251-269 | of two tasks woken for one listener the one that runs second is that panic exactly when the first takes all the bytes |
| Streams.Listener.Append | src/Tasks.cpp:607-628 | the copy into a new buffer adds the bytes at the back |
| Streams.Listener.Cut | src/Tasks.cpp:638-654 | the shift in place drops the bytes at the front and keeps the others in order |
| Streams.Stream.RegisterWriter | src/Tasks.cpp:552-566 | adds a writer under the next id unless an exclusive one is there, or is asked for among others; all ones stand for refusal |
| Streams.Stream.RegisterListener | src/Tasks.cpp:568-572 | adds an empty listener under the next id, and leaves the others |
| Streams.Stream.WriteStream | src/UserIPC.cpp:302-309 | a registered writer's bytes reach the back of every listener; any other writer changes nothing |
| Streams.Stream.ReadStream | src/UserIPC.cpp:277-296 | the caller's buffer gets the bytes that leave the listener; a caller that may wait and finds none is parked and hooked |
| Streams.Stream.ResumeRead | src/UserIPC.cpp:251-269 | a woken read is evaluated again and finds its bytes, or is the panic of blocking twice |
| LinkedLists.List.Insert | src/inc/list:191-213 | the contents gain one element at the position, whose node is returned; forward and backward links agree, and other positions stay good |
| LinkedLists.List.Erase | src/inc/list:215-235 | the contents lose the element at the position, and the position behind it is returned |
| LinkedLists.List.PushFront | src/inc/list:237-250 | the contents gain one element in front |
| LinkedLists.List.PushBack | src/inc/list:252-265 | the contents gain one element behind |
| LinkedLists.List.PopFront | src/inc/list:267-279 | the contents lose the first element |
| LinkedLists.List.PopBack | src/inc/list:281-293 | the contents lose the last element |
| LinkedLists.List.Remove | src/inc/list:295-314 | the contents lose the first occurrence, and only that |
| LinkedLists.List.Clear | src/inc/list:316-326 | nothing is left |
| LinkedLists.List.Forward | src/inc/list:92-95 | following next from the start visits the contents |
| LinkedLists.List.Backward | src/inc/list:116-122 | following prev from the end visits them in reverse |
| Numbers.FindPower | src/string.cpp:369-378 | for fields no wider than 10 decimal or 8 hexadecimal digits the search ends at the right power without overflow; for wider ones it still ends |
| Numbers.Emit | src/string.cpp:380-396 | printing from that power down gives the text that repeated division by the base gives from the other end, padding and separators included; from any other power it gives as many characters as that has digits, and the separators between them |
| Numbers.Format | src/string.cpp:363-399 | the printed text is the right one exactly up to those widths, with separators or without |
| Numbers.TextIs | src/string.cpp:377-395 | the right text without separators is padding up to the width and then digits that denote the number in the base, hexadecimal letters included, with no zero in front |
| Numbers.TextGrouped | src/string.cpp:370-395 | the one with separators has them before the last 3, 6, 9 decimal digits, or the last 4 and 8 hexadecimal ones, and nowhere else |
| Numbers.Atoi | src/string.cpp:181-186 | reads the value of the leading digits, in 32-bit two's complement |
| Numbers.PrintThenRead | src/string.cpp:363-399 | a printed number reads back exactly when it is below 2^31 and no blank stands before it |
| Strings.SpansAreWords | src/string.cpp:161-179 | the words of a string are all its maximal stretches without spaces, and nothing else |
| Strings.SpansAscend | src/string.cpp:161-179 | they come in order |
| Strings.Trim | src/string.cpp:146-159 | the result is the string without the spaces at either end |
| Strings.Split | src/string.cpp:161-179 | the result is the words of the string, in order |
| Strings.TrimKeepsWords | src/string.cpp:161-162 | trimming first loses no word |

## Left out

- Hardware effects: register frames, descriptor tables, page-directory reloads and port I/O; a task switch assigns `current`.
- Waiting for an interrupt with a timeout: its event can fire before the woken call runs again, and the source then asserts.
- `readStream` and waiting for a registered name in the scheduler's theorems: their wake-ups depend on conditions outside the scheduler. Streams have their own account, one stream at a time, so a reader hooked on listeners of two streams at once is not modelled.
- A refused privilege ends the task and is the exit step. In the source the check returns when the task has been ended, and the body of the call still runs for it (waiting for an interrupt then leaves the call a second time); that is assumed away. Privileges, I/O bitmaps and the name registry are not modelled.
- Creating tasks: `beginExecution` is modelled for tasks that are neither in the ring nor ended, as the source's callers use it. The idle task makes no calls and does not fault.
- A send to a task that is not there dereferences a null pointer in the source; it is a panic of the machine.
- `readQueue` and `grabQueue`, which copy an item's bytes, and time stamps of items.
- 32-bit wrap-around of interrupt hit counts, message numbers and wake-up numbers, which count up without bound here.
- Kernel.Tasks.Nanosleep: takes the time in microseconds, and pending times together stay below 2^32, as the timer's sums do.
- Kernel.Tasks.ShiftQueue: removing an id that is not queued leaves the queue alone.
- Timers.Timer.WakeIn: pending times and the new one together stay below 2^32.
- Heaps.Heap.Alloc: the array of entries has one spare slot, since removal reads one slot past the last; the area is smaller than 2^31 bytes; the count of used bytes, which is never lowered, grows by each request that is served.
- HeapRuns.AlwaysTiles: says nothing of runs with a request for zero bytes or for an aligned block of 2^31 bytes or more, which break the tiling; a request that finds no hole is a panic of the source and leaves the index alone here.
- Ata.Drive.ReadSectors: one command is an atomic transfer of up to 256 sectors; the command protocols, errors and the DMA variant are not modelled.
- Fat.Volume.EntryMeetsFormat: the size of a cluster is a multiple of four, as the format has it, and the sector number does not wrap at 32 bits.
- Fat.Volume.ReadIsSlice: the contents are those that the driver reads for each cluster; clusters have 4 to 65535 bytes, and sector numbers fit in 32 bits; the branches for other FAT formats, which only panic, are not modelled.
- FatDirs.Directory.Readdir: clusters have 4096 bytes, as the loops assume, the directory's chain is finite, and names are made by functions of the directory records that are left open.
- Memory.FrameMap.FreeFrame: a word of the bitmap is the sequence of its 32 bits.
- Elf.Loader.LoadImageInto: headers and file ranges lie inside the image, sizes are below 2^31, where the signed remainder is exact, the image is not part of the memory written, and frame 0 is in use; running out of frames is a result, not a panic.
- CoreDump.DumpElfCore: the file is smaller than 2^32 bytes; the register values in the status note are bytes given from outside; only the fields of the headers that have a value are claimed of the loader's reading.
- Streams.Stream.ReadStream: a missing listener is a panic; a missing stream is not modelled. A parked call finds its listener again by its id. Resetting a listener is never called and not modelled.
- LinkedLists.List.PopFront: the list is not empty, as in the source, which would follow a null pointer; freeing memory is not modelled.
- Numbers.Format: one number field; the rest of the format string, strings and escapes are not modelled.
- Placement-mode allocation, cloning page tables (which always panics), console, debugger, keyboard, shell, network and bus drivers, the file-system relay, symbols, vectors and counted pointers.
