# kOS, verified

A Dafny model of the parts of the kOS kernel, its C library and its image tools that carry hard,
self-contained properties, and proofs of those properties. `dafny verify dfyconfig.toml` checks
everything. Integers are unbounded here; where the C code keeps them in 32 or 64 bits and they can wrap
around, that is written out.

## What is modelled

**Initrd image** (`Initrd*.dfy`). `mkinitrd` turns a directory tree into one byte image with absolute
offsets and back-patched `next` links; the kernel parses it by following those offsets; `chkid` walks
it by counting. The format is a predicate on bytes, `Describes`. The builder with its global pointers,
the writer with its file position, the kernel's parser and chkid's walk are methods proved against it.
Main results: the parser returns a tree exactly when the image describes it; building, writing and
mounting any tree gives the tree back; the entries chkid visits are those the parser visited; and parser
and chkid never return exactly on the images whose links lead into a circle.

**Process core** (`Process*.dfy`). `ProcessModel` is `pm.c`, `timer.c` and `ipc.c` as a state machine:
create, fork, yield, tick, sleep, block, unblock, send, receive, waitpid, exit, kill. `Inv` holds in
every state reached from boot; a step crashes exactly in the listed cases; the kernel copies every
message to its receiver exactly once, in order and with its sender over whole runs; every return value is
said; sleepers sleep exactly until their
tick; and it is said exactly when a process on the ready list gets its turn, is passed over, or is still
waiting. `ProcessTable` is the same on linked records with head and tail pointers: every operation, every
step and every whole run does what the model does, and what pm_destroy leaves of the list when it takes
off the last process is stated exactly.

**Ring buffer and mailbox** (`RingBuffer.dfy`, `Mailbox.dfy`, `ProcessMail.dfy`). A byte array with read
and write index refines a bounded queue; on top of it, messages come out of a mailbox as they went in;
and in every step of the kernel the ring buffers of all processes hold what the model's mailboxes hold.

**Memory** (`RunScan.dfy`, `FindPages.dfy`, `PageBitmap.dfy`, `PageTable.dfy`, `PageSearch.dfy`,
`HeapModel.dfy`, `HeapLedger.dfy`, `HeapLists.dfy`). The page bitmap with its word-by-word run search, the two-level page
tables as a flat map from pages to entries, the search for unmapped addresses, and the kernel heap with
its linked lists.

**Storage stack** (`Ranges.dfy`, `AtaRegisters.dfy`, `AtaRequest.dfy`, `Ata.dfy`, `Storage.dfy`). ATA
requests cut into chunks, encoded in registers, and moved by the PIO state machines against a drive that
answers as it likes and keeps the commands it was given: a request follows the protocol, fails only as the
drive gives it reason to, and is served by every drive that is willing; byte ranges on top of any driver of whole blocks, which may fail, tear writes and
answer requests outside the device as it likes; and both together, on a partition of an ATA drive.

**C library** (`QsortModel.dfy`, `QsortProof.dfy`, `QsortLimit.dfy`, `Qsort.dfy`, `StrTo.dfy`,
`NumFmt.dfy`, `NumRoundTrip.dfy`). The in-place `qsort`, saturating `strtol` and `strtoul`, and
`numfmt`.

## What turned out false of the code

The model follows the code. Where the code falls short of what it is for, a lemma shows it fail and
another says exactly when it does not.

| what | where | failing case | exact condition |
|---|---|---|---|
| the parser of an initrd image and chkid come to an end | kernel/fs/initrd.c:204-241, share/src/chkid/initrd.c:82-113 | `InitrdCircle.RingNeverEnds` | `InitrdCircle.NeverEndsIff`, `InitrdCircle.CheckNeverEndsIff` |
| `find` is a first-fit search | kernel/mm/mm.c:120-151 | `FindPages.SkipsWord`, `FindPages.OverrunsEnd`, `FindPages.CountCarriedOver` | `FindPages.FindCorrectIff` |
| `vm_find_range` returns free pages | kernel/mm/virt.c:258-311 | `PageSearch.StaleExists` | `PageSearch.RangeFreeIff` |
| `kmalloc` loses no bytes | kernel/mm/kmalloc.c:46-51 | `HeapModel.LosesBlock` | `HeapModel.MallocConservesIff` |
| a process can always exit | kernel/pm.c:246-250 | `ProcessCrash.LostWaitCrashes` | `ProcessDeath.ExitInv` |
| any process can be destroyed | kernel/pm.c:234-250, kernel/loader.c:278 | `ProcessRuns.DestroyUnqueuedCrashes` | `ProcessDeath.DestroyInv` |
| the ready list survives a destroyed process | kernel/pm.c:317-327 | `ProcessTable.DestroyLast` | `ProcessTable.Kernel.Destroy` |
| after a schedule a process of the table is current | kernel/pm.c:381-388 | `ProcessTable.DestroyedLast` | `ProcessTable.Kernel.Schedule` |
| a ready process runs after as many schedules as there are processes before it | kernel/pm.c:329-330, kernel/pm.c:374-379 | `ProcessFair.StarvedForGood` | `ProcessFair.TurnIff` with `ProcessFair.MeetsFate` |
| a process sleeps as long as it asks to | kernel/timer.c:57 | `ProcessCalls.SleepCutShort` | `ProcessCalls.SleepIff` |
| a sleeper wakes up | kernel/timer.c:54-63 | `ProcessHistory.AsleepForGood` | `ProcessHistory.SleepsForGoodIff` |
| `rbuf_create` makes room for its elements | kernel/util/ringbuffer.c:35 | `RingBuffer.RoomWraps` | `RingBuffer.Ring.Create` |
| `rbuf_write` with `override` keeps the buffer well-formed | kernel/util/ringbuffer.c:87-99 | `RingBuffer.OverrideBreaks` | `RingBuffer.Ring.Write` |
| `qsort` sorts | lib/libc/functions/stdlib/qsort.c:88 | `QsortLimit.StaysUnsorted` | `QsortLimit.SortsExactly` |
| a read stays within its buffer | kernel/cdi/storage.c:105-132 | `Storage.NeededWraps` | `Storage.OverrunsIff` |
| a read within the device asks only for its blocks | kernel/cdi/storage.c:105-127 | `Storage.LastBytesStray` | `Storage.PlanFits` |
| a page mapped with the user or the write flag can be used so | kernel/mm/virt.c:113-152 | `PageTable.UserBehindKernel` | `PageTable.RightsIff` |
| `vm_alloc_addr` maps every byte asked for | kernel/mm/virt.c:320-333 | `PageSearch.NothingCounted` | `PageSearch.AllBytesIff` |
| a drive reads the sectors asked for | kernel/cdi/ata/request.c:109-133 | `AtaRegisters.WrapsAround` | `AtaRegisters.SeenAsMeant`, `Ata.SentAsMeant` |
| `numfmt` prints every number | lib/libutil/src/format.c:37-42 | `NumFmt.MinusOne` | `NumFmt.Numfmt` |
| printed numbers read back | lib/libutil/src/format.c:26 | `NumRoundTrip.Digit23` | `NumRoundTrip.ReadPartIff` |
| in base 0 and 16 the text `0` is a number, wherever it ends | lib/libc/functions/_PDCLIB/strtox_prelim.c:22-38 | `StrTo.ZeroLost` | `StrTo.ZeroLostIff` |

Code and documentation disagree in one more place: share/include/cdi/storage.h promises -1 from a
failed `read_blocks`; `ata_read_blocks` returns 1 (kernel/cdi/ata/device.c:381-387), which `dev_read`
passes on and a caller cannot tell from one byte read. `Ata.ReadBlocks` says what is returned.

## Model

| member | source | states |
|---|---|---|
| InitrdFormat.EntryLayout | share/include/kos/initrd.h:24-40 | each field of an entry is the little-endian word at its offset in the structure |
| InitrdFormat.FieldsOfEntry | share/include/kos/initrd.h:24-40 | the five little-endian words of a written entry read back as its fields |
| InitrdFormat.EntryParts | share/src/mkinitrd/initrd.c:142-170 | a written entry, wherever it stands in an image, reads back: kind, count, `next`, its name as a C string at the name offset, and what follows at the content offset |
| InitrdFormat.LayoutDescribes | share/src/mkinitrd/initrd.c:128-241 | the bytes written for a node at offset `at` describe that node there, subtree included, with true counts, and its `next` is the end of the subtree or 0 |
| InitrdFormat.LayoutDescribesChain | share/src/mkinitrd/initrd.c:214-225 | the bytes written for a list of siblings form a `next` chain through exactly those siblings |
| InitrdFormat.ImageDescribes | share/src/mkinitrd/initrd.c:243-266 | the image of any tree with NUL-free names that fits 31 bits carries the header and describes the tree behind it |
| InitrdBuilder.Builder.constructor | share/src/mkinitrd/initrd.c:45-52 | nothing is open and nothing built |
| InitrdBuilder.Builder.AddEntry | share/src/mkinitrd/initrd.c:54-67 | the record is linked behind the current entry of the current directory, whose count, `files` and `last_entry` follow |
| InitrdBuilder.Builder.StartDir | share/src/mkinitrd/initrd.c:69-85 | the linked records stand for the open directories as before plus a new empty one inside, whatever malloc left in the unset field |
| InitrdBuilder.Builder.AddFile | share/src/mkinitrd/initrd.c:87-98 | the innermost open directory gets the file as its last child; nothing else changes |
| InitrdBuilder.Builder.EndDir | share/src/mkinitrd/initrd.c:100-105 | the innermost open directory becomes the last child of the one around it, or the finished root |
| InitrdBuilder.ListAppend | share/src/mkinitrd/initrd.c:54-67 | linking a record behind the last sibling of a first-child/next-sibling list appends one node to the list it stands for |
| InitrdBuilder.CloseInner | share/src/mkinitrd/initrd.c:100-105 | an open directory and its finished last child are together one open directory with one child more |
| InitrdWriter.Append | share/src/mkinitrd/initrd.c:156-160 | writing at the end of the file appends |
| InitrdWriter.Patch | share/src/mkinitrd/initrd.c:227-231 | seek, overwrite, seek back: four bytes change, all others and the position at the end stay |
| InitrdWriter.WriteFile | share/src/mkinitrd/initrd.c:128-178 | from file position == offset, appends the layout of the file; returns the new position |
| InitrdWriter.WriteEntries | share/src/mkinitrd/initrd.c:214-225 | the loop over the children appends the layout of all of them, one behind the other |
| InitrdWriter.WriteNext | share/src/mkinitrd/initrd.c:217-225 | one round: the file position stays the offset, and what is still to be written stays what is missing |
| InitrdWriter.WriteDir | share/src/mkinitrd/initrd.c:180-241 | from file position == offset, appends the layout of the whole subtree, back-patched `next` included; returns the new position |
| InitrdWriter.LinkNext | share/src/mkinitrd/initrd.c:227-234 | back-patching turns the entry written with `next` 0 into the entry with the right `next` and disturbs nothing else |
| InitrdWriter.IdWrite | share/src/mkinitrd/initrd.c:252-266 | the file written is the image of the tree that was built |
| InitrdParser.ReadName | kernel/fs/initrd.c:176-193 | the scan for the terminating zero yields the C string at the offset, or the inode without a name for offset 0 |
| InitrdParser.ParseFile | kernel/fs/initrd.c:195-202 | computes the file inode that the specification reads at the offset |
| InitrdParser.ParseDir | kernel/fs/initrd.c:204-241 | computes the parse that `ParseSound` and `ParseComplete` are about, panics included; the entries it visited are those of `DirVisits` |
| InitrdParser.ParseEntries | kernel/fs/initrd.c:217-235 | the loop over `next`: the inodes of the chain in order, or how it fails, and the entries visited |
| InitrdParser.ParseEntry | kernel/fs/initrd.c:220-232 | file, directory or panic; the entries visited |
| InitrdParser.InitInitrd | kernel/fs/initrd.c:162-174 | panics without the right magic and version, else parses behind the header; the entries visited |
| InitrdParser.ParseSound | kernel/fs/initrd.c:195-241 | whatever is parsed and lies in the image is described by the image |
| InitrdParser.ParseComplete | kernel/fs/initrd.c:195-241 | whatever the image describes is parsed, with names, kinds, order, lengths and contents |
| InitrdParser.ParsesIffDescribed | kernel/fs/initrd.c:204-265 | the parser returns a tree if and only if the image describes that tree |
| InitrdParser.SizedIff | kernel/fs/initrd.c:176-193 | the `length` of every directory inode is the number of its entries if and only if the counts in the image are true |
| InitrdParser.EntryFuel | kernel/fs/initrd.c:204-241 | once a parse ends, a larger bound on the number of entries changes nothing; `InitrdCircle` says which parses end |
| InitrdCircle.ChaseEnds | kernel/fs/initrd.c:204-241 | if the walk over first-child and next links meets no offset of its own path, a bound of one more than the offsets not yet passed lets the parse end, and it succeeds, panics or reads outside the image as the walk comes through, meets an entry of unknown type or leaves the image |
| InitrdCircle.CircleRuns | kernel/fs/initrd.c:204-241 | if it does meet one before anything stops it, no bound lets the parse end |
| InitrdCircle.EndsLike | kernel/fs/initrd.c:204-241 | for every image and every bound above its size: the parse succeeds, panics, reads outside the image or goes on for ever if and only if the links lead through, to an entry of unknown type, out of the image or into a circle |
| InitrdCircle.NeverEndsIff | kernel/fs/initrd.c:204-241 | for every image: the parse ends under no bound if and only if the links lead into a circle before a panic or a wild read; and the bound of the size of the image plus one decides |
| InitrdCircle.MountAny | kernel/fs/initrd.c:162-241 | on any image: panics if the header is wrong; else it never returns, panics, reads outside the image or succeeds as the links lead, and what it returns is the parse under every larger bound |
| InitrdCircle.NestEnds | share/src/chkid/initrd.c:82-113 | chkid: if no directory is met inside itself, the walk ends, and succeeds, meets an unknown type or leaves the image as the links lead |
| InitrdCircle.NestRuns | share/src/chkid/initrd.c:82-113 | chkid: if one is, it never does |
| InitrdCircle.CheckNeverEndsIff | share/src/chkid/initrd.c:82-113 | for every image: chkid never returns if and only if a directory is met inside itself before anything stops the walk, and else ends as the links lead |
| InitrdCircle.SelfNeverEnds | kernel/fs/initrd.c:204-241 | a directory whose first entry is itself is parsed and checked for ever |
| InitrdCircle.RingNeverEnds | kernel/fs/initrd.c:162-241 | an image of 24 bytes with the right header that neither the parser nor chkid gets through |
| InitrdCheck.CheckDir | share/src/chkid/initrd.c:82-113 | the count-driven loop visits the offsets of the specified walk |
| InitrdCheck.DirWalkIs | share/src/chkid/initrd.c:82-113 | where counts are true, the walk visits the described entries in order |
| InitrdCheck.KernelWalkIs | kernel/fs/initrd.c:217-235 | what the parser visits, name reads included, is the described entries in order |
| InitrdCheck.SameWalk | share/src/chkid/initrd.c:96-110 | where counts are true, the offsets chkid visits are those the parser visits, in the same order |
| InitrdCheck.CheckAndMount | share/src/chkid/initrd.c:96-110 | both programs on one image: what chkid reports is what the parser recorded |
| Initrd.ScanDir | share/src/mkinitrd/main.c:28-73 | the calls issued for a directory build that directory inside the open one, or as the root |
| Initrd.MkInitrd | share/src/mkinitrd/main.c:75-91 | the image written is the image of the tree scanned |
| Initrd.RoundTrip | share/src/mkinitrd/initrd.c:128-266 | for every tree with NUL-free names whose image fits 31 bits: the image passes check_img, parses to the tree, and chkid walks the entries the parser visits |
| Initrd.BuildAndMount | kernel/fs/initrd.c:245-265 | build, write, check and boot: the kernel mounts the tree that was scanned, visiting the entries chkid reported, with the number of entries as the length of every directory |
| ProcessInvariant.FindsLive | kernel/pm.c:270-279 | the first slot with the pid of a live process is its slot, although free slots keep old and initial pids |
| ProcessInvariant.ScheduleQueue | kernel/pm.c:355-389 | from a list that may just have lost the current process, scheduling restores: front is current and running, the list is without duplicates and holds exactly the runnable ones and idle |
| ProcessInvariant.ScheduleInv | kernel/pm.c:355-389 | pm_schedule keeps the invariant |
| ProcessSteps.BlockInv | kernel/pm.c:428-439 | blocking the current process for any reason but waiting keeps the invariant and changes only its record and who runs |
| ProcessSteps.UnblockInv | kernel/pm.c:446-452 | pm_unblock of a process blocked for a file or at its start keeps the invariant |
| ProcessSteps.SleepStepInv | kernel/timer.c:54-63 | timer_sleep of the current process never fails and keeps the invariant |
| ProcessSteps.CreateInv | kernel/pm.c:156-166 | pm_create keeps the invariant: the lowest free slot gets a new pid and, if ready, the end of the list |
| ProcessSteps.ForkInv | kernel/pm.c:173-227 | fork keeps the invariant |
| ProcessSteps.SendInv | kernel/ipc.c:51-65 | ipc_send to any process keeps the invariant, in particular: a process blocked for receiving has an empty mailbox and a wait buffer |
| ProcessSteps.ReceiveInv | kernel/ipc.c:74-90 | ipc_receive, blocking or not, keeps the invariant |
| ProcessDeath.WaitStepInv | kernel/pm.c:478-490 | waitpid for a pid in the table keeps the invariant: the caller is blocked on the one process and is its only waiter |
| ProcessDeath.WaiterFound | kernel/pm.c:239-244 | the waiter pm_destroy looks up is a live process blocked on the dying one |
| ProcessDeath.DestroyInv | kernel/pm.c:234-263 | pm_destroy of any process but idle succeeds if and only if it is on the ready list and the pid it last waited for is in the table, and then keeps the invariant |
| ProcessDeath.DestroyEffect | kernel/pm.c:234-263 | up to scheduling: the victim is free, its waiter, if any, is ready and has the exit status, all other live processes are as before |
| ProcessDeath.ExitInv | kernel/pm.c:464-470 | the same condition and the same invariant for sys_exit |
| ProcessDeath.ExitEffect | kernel/pm.c:464-470 | the same effect for sys_exit, with the status given |
| ProcessTimer.WakeScanExact | kernel/timer.c:30-42 | the scan wakes exactly the sleepers that are due, in slot order, and leaves every other process alone |
| ProcessTimer.WakeExact | kernel/timer.c:23-46 | a timer interrupt appends exactly the overdue sleepers to the ready list, with the cached minimum or without |
| ProcessTimer.FastCheckRefinesScan | kernel/timer.c:27-28 | checking the cached minimum first gives the same state as always scanning |
| ProcessTimer.WakeInv | kernel/timer.c:23-46 | after the interrupt no overdue sleeper remains and the invariant holds |
| ProcessTimer.TickInv | kernel/pm.c:340-348 | a whole tick, rescheduling included, never fails and keeps the invariant |
| ProcessRuns.BootInv | kernel/pm.c:546-573 | the state after init_pm satisfies the invariant |
| ProcessRuns.StepInv | kernel/pm.c:156-510 | every enabled step crashes exactly in the listed cases and else keeps the invariant |
| ProcessRuns.RunInv | kernel/pm.c:156-510 | so does every run |
| ProcessRuns.ReachableInv | kernel/pm.c:286-333 | in every state reached from boot the ready list is duplicate-free and headed by the current process, holds exactly the runnable processes and idle, and waiters and waited-for match |
| ProcessRuns.OneWaiter | kernel/pm.c:478-490 | two processes are never blocked on the same process |
| ProcessRuns.ExitHandsOff | kernel/pm.c:234-263 | exit hands its status to the one process blocked on the caller and queues it once; the caller is gone; everyone else is as before |
| ProcessRuns.DestroyUnqueuedCrashes | kernel/loader.c:273-281 | destroying a process that is not on the ready list ends in the failed search of pm_deactivate |
| ProcessRuns.RoundRobin | kernel/pm.c:472-476 | the process k places behind the front runs after k yields |
| ProcessFair.StepMoves | kernel/pm.c:312-389 | every step moves the ready list on by 0 to 3 places: who was that far back or further is that much closer to the front, and who was nearer, but not in front, is behind all of these |
| ProcessFair.MeetsFate | kernel/pm.c:312-389 | over every run, for the process at place k: it is current after n steps and not before, or step n passes it over and it has not been current, or it has not been current and is still waiting, as `Fated` computes from the moves of the list |
| ProcessFair.TurnIff | kernel/pm.c:329-379 | it gets its turn if and only if at some point of the run the list has moved on by exactly k places, and is still waiting if and only if it has moved on by less in all |
| ProcessFair.FairIfSingle | kernel/pm.c:374-379 | in every run in which no process blocks or ends, the process k places behind the front runs when the list has moved on k times |
| ProcessFair.CallsStarve | kernel/pm.c:312-389 | while two processes send each other messages and wait for the answers, a process between them and idle stays ready and never runs, any number of messages long |
| ProcessFair.StarvedForGood | kernel/pm.c:312-389 | such runs from boot, of any length |
| ProcessHistory.MailStep | kernel/ipc.c:9-90 | in every step: the kernel copies exactly the delivered messages to the receiver, and what waits plus what is accepted is what is delivered plus what waits after |
| ProcessHistory.MailRun | kernel/ipc.c:9-90 | over every run: what was copied to a process is what waited and was accepted, exactly once, first in first out, but for at most 24 still waiting; each message accepted is the one handed in, with the pid of the process that was current as its sender |
| ProcessHistory.AcceptedFrom | kernel/ipc.c:51-56 | a message accepted is the one handed in by the current process, with its pid as the sender |
| ProcessCalls.ReachableUnended | kernel/pm.c:85-88 | in every state reached from boot the exit status of every live process is -1 |
| ProcessCalls.StepReturns | kernel/pm.c:234-510 | every step leaves the return values of all live processes as they were, except: fork returns the new pid, or -1 when the table is full, and 0 to the child; waitpid -1 for a process that is dead or waited for; and the process that waits for one that ends gets its exit status, -1 if it was killed |
| ProcessCalls.ForkReturns | kernel/pm.c:498-512 | fork returns to the parent the pid of the child, which no other live process has |
| ProcessCalls.SleepIff | kernel/timer.c:54-63 | the wake-up tick is the milliseconds in ticks of ten from now if and only if neither the product nor the sum passes 2^32 |
| ProcessCalls.SleepCutShort | kernel/timer.c:57-57 | 42949683 milliseconds at tick 0: over with the next tick |
| ProcessHistory.SleeperStep | kernel/timer.c:23-46 | a sleeper sleeps through every step but the tick that reaches its time, which queues it |
| ProcessHistory.SleepsUntil | kernel/timer.c:23-63 | over every run: a sleeper is asleep until its tick |
| ProcessHistory.NeverWoken | kernel/timer.c:32-36 | a sleeper with wake-up tick 0 is never woken in any run |
| ProcessHistory.AsleepForGood | kernel/timer.c:54-63 | 10 milliseconds asked for at tick 0xFFFFFFFF: asleep in every run from there |
| ProcessHistory.WokenInTime | kernel/timer.c:23-46 | any other sleeper is woken by the first tick not before its time |
| ProcessHistory.SleepsForGoodIff | kernel/timer.c:54-63 | timer_sleep sleeps for good if and only if the 32-bit wake-up tick comes out as 0 |
| ProcessCrash.LostWaitCrashes | kernel/pm.c:246-250 | a run of seven steps from boot in which an exit looks up a pid that is gone |
| ProcessTable.Kernel.constructor | kernel/pm.c:546-573 | the linked table after init_pm and init_timer is the booted state |
| ProcessTable.Kernel.Activate | kernel/pm.c:286-305 | linking behind the tail appends to the ready list; behind a dangling tail the process is lost, unless the list is empty |
| ProcessTable.Kernel.Turn | kernel/pm.c:375-379 | relinking head and tail is the rotation of the model; with a dangling tail the front is lost |
| ProcessTable.Kernel.Schedule | kernel/pm.c:355-389 | equals the model, and fails if and only if the list is empty; with a dangling tail the front is lost, and when nobody is left the empty record behind the global idle_proc becomes current, which is in no slot of the table; once a process has been activated again, the next schedule leaves an intact list with its front current |
| ProcessTable.Kernel.Locate | kernel/pm.c:317-327 | the search finds the process and its predecessor, or runs off the list |
| ProcessTable.Kernel.Unlink | kernel/pm.c:312-327 | unlinking any process takes it out of the list; fails if and only if it is not on it; the tail pointer dangles afterwards if and only if it was the last |
| ProcessTable.Kernel.Deactivate | kernel/pm.c:312-333 | equals the model, failure included; the tail dangles if and only if the process was the last |
| ProcessTable.Kernel.Block | kernel/pm.c:428-439 | the same for pm_block |
| ProcessTable.Kernel.Unblock | kernel/pm.c:446-452 | equals the model; behind a dangling tail the process is ready but lost |
| ProcessTable.Kernel.GetProc | kernel/pm.c:270-279 | the loop finds the lowest slot with the pid |
| ProcessTable.Kernel.GetEmpty | kernel/pm.c:140-149 | the loop finds the lowest free slot |
| ProcessTable.Kernel.InitProc | kernel/pm.c:71-138 | equals the model |
| ProcessTable.Kernel.Create | kernel/pm.c:156-166 | equals the model, failure included |
| ProcessTable.Kernel.Fork | kernel/pm.c:173-227 | equals the model |
| ProcessTable.Kernel.WaitPid | kernel/pm.c:478-490 | equals the model, failure included |
| ProcessTable.Kernel.HandOff | kernel/pm.c:239-244 | waking the waiter equals the model; behind a dangling tail the waiter is lost |
| ProcessTable.Kernel.Forget | kernel/pm.c:246-250 | dropping the claim on the awaited process equals the model, failure included |
| ProcessTable.Kernel.Bury | kernel/pm.c:237-250 | the part behind pm_deactivate equals the model, failure included |
| ProcessTable.Kernel.Destroy | kernel/pm.c:234-263 | for any process but idle: equals the model, failure included, with the list intact if and only if it was not the last; else the tail dangles, process and waiter are off the list, and all else is as in the model |
| ProcessTable.Kernel.Step | kernel/pm.c:156-510 | any step the kernel takes equals the model, failure included, and keeps list and invariant |
| ProcessTable.Kernel.Run | kernel/pm.c:156-510 | so does every run |
| ProcessTable.Kernel.Exit | kernel/pm.c:464-470 | equals the model, failure included |
| ProcessTable.Kernel.TimerSleep | kernel/timer.c:54-63 | equals the model |
| ProcessTable.Kernel.WakeOne | kernel/timer.c:32-41 | the loop body equals one step of the scan |
| ProcessTable.Kernel.TimerIrq | kernel/timer.c:23-46 | equals the model with the fast check |
| ProcessTable.Kernel.IpcSend | kernel/ipc.c:51-65 | equals the model: stamp, enqueue, copy the oldest message to a waiting receiver; answers EINVAL if and only if the slot is free and EAGAIN if and only if the mailbox is full; what the receiver was handed and what its mailbox holds grows by just the message with the pid of the sender |
| ProcessTable.Kernel.IpcReceive | kernel/ipc.c:74-90 | equals the model; hands out the oldest message |
| ProcessTable.LastRound | kernel/pm.c:375-388 | with a dangling tail every process on the list gets one more turn, in order, and then the list is empty and nobody is running |
| ProcessTable.RunOut | kernel/pm.c:375-388 | so schedule after schedule empties the list, until no process of the table is current |
| ProcessTable.DestroyLast | kernel/pm.c:322-327 | from boot: create, schedule, fork, destroy the child; the list is [1, 0] and its tail pointer dangles |
| ProcessTable.DestroyedLast | kernel/pm.c:375-388 | two schedules later the list is empty and no process of the table is current |
| ProcessMail.Boxes.Renew | kernel/pm.c:96-97 | a new process gets an empty ring buffer; no other changes |
| ProcessMail.Boxes.Put | kernel/ipc.c:9-25 | a message goes into the ring buffer of one process, unless it is full; no other changes |
| ProcessMail.Boxes.Get | kernel/ipc.c:27-42 | the oldest message comes out of the ring buffer of one process; no other changes |
| ProcessMail.Boxes.Send | kernel/ipc.c:51-65 | enqueue, then serve a receiver that waits |
| ProcessMail.Boxes.Carry | kernel/ipc.c:51-90 | what a step does to the ring buffers is what it does to the mailboxes |
| ProcessMail.Unconcerned | kernel/ipc.c:51-90 | a step changes the messages of no process but the one sent to, receiving or born |
| ProcessMail.MatchesStep | kernel/ipc.c:51-90 | so ring buffers that matched the mailboxes match them after the step |
| ProcessMail.Post.Step | kernel/ipc.c:51-90 | every step of the kernel with all messages in ring buffers: they hold the mailboxes of the model, and what is copied to a receiver comes out of them |
| RingBuffer.QueueAppend | kernel/util/ringbuffer.c:93-97 | overwriting the element behind the last, modulo capacity, appends it to the queue and changes no other |
| RingBuffer.QueueTail | kernel/util/ringbuffer.c:113-117 | advancing the read index by one element, modulo capacity, drops the first |
| RingBuffer.Ring.Create | kernel/util/ringbuffer.c:25-47 | for any element size and capacity: none if and only if their product is 0 in 32 bits; else an empty queue if and only if the product is below 2^32 |
| RingBuffer.RoomWraps | kernel/util/ringbuffer.c:35-39 | 65537 elements of 65536 bytes: a buffer of 65536 bytes |
| RingBuffer.Ring.FetchNext | kernel/util/ringbuffer.c:113-117 | one element goes behind those already read |
| RingBuffer.Ring.Store | kernel/util/ringbuffer.c:93-97 | one round copies one element to the write index and advances it |
| RingBuffer.Ring.StoreAll | kernel/util/ringbuffer.c:91-97 | the loop appends the elements in order |
| RingBuffer.Ring.Write | kernel/util/ringbuffer.c:84-102 | without override: appends as many as fit and says how many; with override: well-formed afterwards if and only if all fitted |
| RingBuffer.Ring.Fetch | kernel/util/ringbuffer.c:113-117 | one round copies the element at the read index and advances it |
| RingBuffer.Ring.Read | kernel/util/ringbuffer.c:104-122 | takes the oldest elements in order, as many as asked for and there |
| RingBuffer.OverrideBreaks | kernel/util/ringbuffer.c:87-99 | two elements written with override to a buffer of one: the count passes the capacity |
| Mailbox.UnpackPack | share/include/kos/msg.h:6-13 | a message of five 32-bit words survives the way through memory |
| Mailbox.Box.constructor | kernel/pm.c:97-97 | an empty mailbox of 24 messages |
| Mailbox.Box.Send | kernel/ipc.c:9-25 | appends the message, or refuses exactly when 24 wait |
| Mailbox.Box.Receive | kernel/ipc.c:27-42 | returns the oldest message as sent, or refuses exactly when none waits |
| RunScan.ScanFree | kernel/mm/mm.c:90-103 | extending a run of free pages either completes the first fit or keeps the scan invariant |
| RunScan.ScanUsed | kernel/mm/mm.c:99-101 | a used page ends the run |
| FindPages.ContiguousCorrect | kernel/mm/mm.c:108-153 | when the three loops cover [start, end): the lowest run of `num` free pages is found, and none is reported if and only if there is none |
| FindPages.SkipsWord | kernel/mm/mm.c:120-151 | for every such pair of ends and every length that fits there are free pages for which the word skipped makes the search wrong |
| FindPages.OverrunsEnd | kernel/mm/mm.c:120-130 | likewise when both ends lie in one word and the search runs past the end |
| FindPages.TooLongCorrect | kernel/mm/mm.c:108-153 | a run too long for anything the loops look at is correctly not found |
| FindPages.FindCorrectIff | kernel/mm/mm.c:108-153 | the search is right for all sets of free pages if and only if no word is skipped or the run cannot fit |
| FindPages.FoundBounded | kernel/mm/mm.c:108-153 | where a reported run can end, right or wrong |
| FindPages.SinglePageFree | kernel/mm/mm.c:155-164 | a single page that is reported is free, whatever the ends |
| FindPages.FindSees | kernel/mm/mm.c:108-153 | whatever the ends: the run reported is the first fit among the pages the loops look at, in their order; none if and only if none fits there |
| FindPages.SinglePageFound | kernel/mm/mm.c:108-164 | whatever the ends: a single page is found if and only if one of the pages looked at is free |
| FindPages.FoundIsFree | kernel/mm/mm.c:108-153 | a run reported that does not cross the skipped word is free |
| FindPages.CountCarriedOver | kernel/mm/mm.c:145-151 | a set of free pages for which a reported two-page run holds a page in use |
| PageBitmap.SetBit | kernel/mm/mm.c:50-53 | sets that bit of a word and no other |
| PageBitmap.ClearBit | kernel/mm/mm.c:55-58 | clears that bit of a word and no other |
| PageBitmap.BitWritten | kernel/mm/mm.c:40-58 | changing the bit of a page changes that page and no other |
| PageBitmap.CoveredNext | kernel/mm/mm.c:60-72 | the pages of a range, one by one, around the end of the address space |
| PageBitmap.CountTaken | kernel/mm/mm.c:274-288 | taking `num` free pages lowers the number of free pages by `num` |
| PageBitmap.CountGiven | kernel/mm/mm.c:274-288 | giving back `num` used pages raises it by `num` |
| PageBitmap.CountCovered | kernel/mm/mm.c:206-226 | the same for a range around the end of the address space, whole rounds included |
| PageBitmap.RangesApart | kernel/mm/mm.c:176-191 | a range of free pages overlaps no live range |
| PageBitmap.Bitmap.MarkFree | kernel/mm/mm.c:50-53 | just that page becomes free |
| PageBitmap.Bitmap.MarkUsed | kernel/mm/mm.c:55-58 | just that page becomes used |
| PageBitmap.Bitmap.MarkRangeFree | kernel/mm/mm.c:60-65 | just those pages become free, around the end of the address space |
| PageBitmap.Bitmap.MarkRangeUsed | kernel/mm/mm.c:67-72 | just those pages become used, around the end of the address space |
| PageBitmap.Bitmap.IsFree | kernel/mm/mm.c:74-77 | tells whether the page is free |
| PageBitmap.Bitmap.TestBit | kernel/mm/mm.c:90-103 | one step of the run count |
| PageBitmap.Bitmap.TestBits | kernel/mm/mm.c:123-130 | the loop over bits of one word is the run count over those pages |
| PageBitmap.Bitmap.TestWords | kernel/mm/mm.c:132-143 | the loop over words is the run count over all their pages |
| PageBitmap.Bitmap.TestWord | kernel/mm/mm.c:133-142 | one word, skipped if it has no free page, is the run count over its pages |
| PageBitmap.Bitmap.TestRest | kernel/mm/mm.c:145-151 | the last loop is the run count over the pages before `end` in its word |
| PageBitmap.Bitmap.Find | kernel/mm/mm.c:108-153 | computes the three loops that the `FindPages` lemmas are about |
| PageBitmap.Bitmap.AllocPage | kernel/mm/mm.c:155-164 | whatever mem_end: the first free page of those looked at becomes live, nothing else changes, and the count falls by one; none if and only if none of them is free; where the search has no gap, it is the lowest free page between dma_end and mem_end |
| PageBitmap.Bitmap.AllocRange | kernel/mm/mm.c:176-191 | whatever mem_end: the first run of free pages in the order looked at, none if and only if there is none; unless it crosses the skipped word it becomes live, overlaps no live range and lowers the count by `num`; with the search free of gaps it is the lowest; in any case exactly the reported range is marked |
| PageBitmap.Bitmap.Take | kernel/mm/mm.c:183-190 | marking free pages used makes the range live |
| PageBitmap.Bitmap.FreeRange | kernel/mm/mm.c:193-204 | frees exactly the range, around the end of the address space; giving back a live range ends it and raises the count by `num`; a bad address or length does nothing |
| PageBitmap.Bitmap.AllFree | kernel/mm/mm.c:217-223 | the loop tells whether every page of the range is free |
| PageBitmap.Bitmap.AllocPhysRange | kernel/mm/mm.c:206-226 | all or nothing: succeeds if and only if the address is aligned, the length is not 0 and every page is free, around the end of the address space; just those pages become used, and the count falls by their number |
| PageBitmap.Bitmap.NumFreePages | kernel/mm/mm.c:274-288 | the number of set bits is the number of free pages |
| PageTable.ClearADFacts | kernel/mm/virt.c:134-136 | clearing accessed and dirty changes neither frame nor presence |
| PageTable.LookupWrite | kernel/mm/intern.h:31-63 | writing one entry of one table changes the flat map at that page only |
| PageTable.LookupNewTable | kernel/mm/virt.c:111-129 | a fresh empty table in an absent slot changes nothing in the flat map |
| PageTable.ConflictIff | kernel/mm/virt.c:130-146 | a page that is mapped already is accepted if and only if frame and flags agree but for the bits that the processor sets, which must not be asked for |
| PageTable.RightsIff | kernel/mm/virt.c:113-152 | a page mapped with the write or the user flag is granted that right by an i386 if and only if its directory slot was empty or has the flag |
| PageTable.UserBehindKernel | kernel/mm/virt.c:113-127 | on any address space with an empty slot: two of its pages are mapped, for the kernel and then for user mode, and user mode is not granted |
| PageTable.ResolveTranslates | kernel/mm/virt.c:368-377 | the physical address is the one that an i386 translates to with these tables, and 0 where it faults |
| PageTable.ResolveIs | kernel/mm/virt.c:368-377 | the physical address is in the frame of the page at the same offset; 0 if and only if the page is not mapped, or for the first byte of frame 0 |
| PageTable.NewTableWellFormed | kernel/mm/virt.c:111-129 | no two directory slots ever share a table |
| PageTable.AddressSpace.TableFor | kernel/mm/virt.c:111-129 | creates the missing table, unless memory is out; the flat map stays |
| PageTable.AddressSpace.DoMap | kernel/mm/virt.c:105-160 | maps exactly that page; refuses exactly when memory is out or the page is mapped otherwise and not forced |
| PageTable.AddressSpace.MapRange | kernel/mm/virt.c:194-206 | page i of the range maps to frame i with the flags given, up to accessed and dirty and modulo the address space, and every other page is as before; with the present flag it succeeds if and only if no page is mapped otherwise and there is a frame for every missing table, without it if and only if there is one for every page without a table; a success uses up just those frames |
| PageTable.AddressSpace.MapAll | kernel/mm/virt.c:200-205 | its loop |
| PageTable.AddressSpace.MapNext | kernel/mm/virt.c:200-205 | one round of the loop |
| PageTable.FilledNext | kernel/mm/virt.c:111-129 | one page more: the missing tables among the slots touched so far are the ones filled |
| PageTable.ClearNext | kernel/mm/virt.c:134-160 | no page of the range is mapped otherwise if and only if that holds for one page less and for the next one as it then is, also where the range runs over itself |
| PageTable.LeakedNext | kernel/mm/virt.c:114-120 | a page unmapped where there is no table takes a frame, and the slot stays without table |
| PageTable.AddressSpace.UnmapRange | kernel/mm/virt.c:213-217 | removes exactly its range; succeeds if and only if there is a frame for every page of it without a table, and uses up just those |
| PageSearch.FindAddr | kernel/mm/virt.c:224-251 | the lowest unmapped page but page 0, or 0 exactly when there is none |
| PageSearch.FindEntry | kernel/mm/virt.c:236-247 | its search of one table: the first entry from there on that is not present |
| PageSearch.ScanTable | kernel/mm/virt.c:272-293 | one table of the range search keeps the scan invariant and the noted start |
| PageSearch.ScanSlot | kernel/mm/virt.c:267-300 | so does one directory slot, with a table or without |
| PageSearch.FindRange | kernel/mm/virt.c:258-311 | finds the first fit; the address returned is the one noted for it: its own unless the directory index is stale, and else the same place in the last table that was entered behind a page in use; a search for no pages stops at the first free page of the first table, or fails if that table has none |
| PageSearch.RangeFreeIff | kernel/mm/virt.c:258-311 | the pages returned are free if and only if the index was not stale |
| PageSearch.SinglePageNeverStale | kernel/mm/virt.c:258-311 | for one page it never is |
| PageSearch.StaleExists | kernel/mm/virt.c:267-291 | well-formed page tables for which it is |
| PageSearch.AllocAddr | kernel/mm/virt.c:320-333 | for any address and size: every byte of the pages counted resolves to its physical byte, around 4 GiB, and no page outside changes; the fit is the lowest one, and without one it fails; the address is the one noted for the fit, its own unless it is stale, and it succeeds if and only if the pages there can be mapped, which for a fit that is not stale and the present flag takes just frames for the missing tables |
| PageSearch.FindFit | kernel/mm/virt.c:325-328 | its search: finds pages if and only if there is a fit, which is the lowest and unmapped; the address noted for it, its own unless it is stale |
| PageSearch.AllBytesIff | kernel/mm/virt.c:322-330 | the pages counted hold every byte asked for if and only if size and offset stay a page below 4 GiB; else at most one page is mapped |
| PageSearch.NothingCounted | kernel/include/arch/i386/page.h:21-21 | for 0xFFFFFFFF bytes NUM_PAGES comes out as 0 |
| PageSearch.PagesWrap | kernel/include/arch/i386/page.h:21-21 | NUM_PAGES in 32 bits |
| PageSearch.FreeAddr | kernel/mm/virt.c:340-346 | for any address and size: unmaps exactly the pages counted, around the end; succeeds if and only if there are frames for those without a table |
| PageSearch.AllocAndFree | kernel/mm/util.c:155-164 | mapping at the lowest fit and unmapping again leaves every page as it was unless the fit is stale, and with the present flag succeeds if and only if there are frames for the missing tables |
| HeapModel.Pages | kernel/mm/kmalloc.c:78-81 | the least number of pages that hold the bytes asked for |
| HeapModel.MallocInv | kernel/mm/kmalloc.c:61-106 | the new block has the size asked for and overlaps no other; all blocks stay non-empty, disjoint and inside granted memory |
| HeapModel.FreeInv | kernel/mm/kmalloc.c:123-142 | kfree keeps that |
| HeapModel.AtUnique | kernel/mm/kmalloc.c:123-142 | a pointer in use names one block |
| HeapModel.MallocBytes | kernel/mm/kmalloc.c:44-106 | bytes before plus bytes obtained are bytes after plus bytes lost with recycled nodes |
| HeapModel.MallocConservesIff | kernel/mm/kmalloc.c:44-106 | none are lost if and only if nothing is free, or a block fits to the byte, or it is the only free one |
| HeapModel.FreeBytes | kernel/mm/kmalloc.c:123-142 | kfree loses none |
| HeapModel.ReallocInv | kernel/mm/kmalloc.c:155-193 | krealloc of a block in use replaces it by one of the new size and keeps the invariant |
| HeapModel.ReallocKeepsBytes | kernel/mm/kmalloc.c:155-193 | the new block starts with the first min(old, new) bytes, and no byte of any block in use changes |
| HeapModel.LosesBlock | kernel/mm/kmalloc.c:44-59 | six calls from the empty heap after which 8 bytes of the page are on no list |
| HeapModel.AfterInv | kernel/mm/kmalloc.c:61-193 | every call, failures and odd arguments included, keeps the invariant |
| HeapModel.RunCallsInv | kernel/mm/kmalloc.c:61-193 | so does every sequence of calls |
| HeapLedger.NullIff | kernel/mm/kmalloc.c:61-193 | a call returns a null pointer if and only if it is kfree, asks for no bytes or resizes what the caller does not hold; else a pointer that no caller holds |
| HeapLedger.CallKeeps | kernel/mm/kmalloc.c:61-193 | a call leaves every block that it does not name in use, and its bytes as they were |
| HeapLedger.RunKeeps | kernel/mm/kmalloc.c:61-193 | so does every sequence of calls |
| HeapLedger.CallMatches | kernel/mm/kmalloc.c:61-193 | one call: what the callers were given and have not given back goes on being what is in use, with the sizes asked for |
| HeapLedger.RunMatches | kernel/mm/kmalloc.c:61-193 | so does every sequence of calls: every live block has the size asked for, and no other block is in use |
| HeapLists.ChainUnlink | kernel/mm/kmalloc.c:93-96 | unlinking a node takes just its block out of the list |
| HeapLists.KHeap.PushUsed | kernel/mm/kmalloc.c:25-29 | linking in front puts the block in front |
| HeapLists.KHeap.PushFree | kernel/mm/kmalloc.c:25-29 | likewise for the free list |
| HeapLists.KHeap.TakeNode | kernel/mm/kmalloc.c:46-51 | a recycled node takes its free block with it |
| HeapLists.KHeap.CreateNode | kernel/mm/kmalloc.c:44-59 | equals the model |
| HeapLists.KHeap.FindFit | kernel/mm/kmalloc.c:66-75 | the loop finds the first block large enough, and the node before it |
| HeapLists.KHeap.FindUsed | kernel/mm/kmalloc.c:125-141 | the loop finds the block of the pointer, and the node before it |
| HeapLists.KHeap.UnlinkFree | kernel/mm/kmalloc.c:92-96 | equals removal |
| HeapLists.KHeap.UnlinkUsed | kernel/mm/kmalloc.c:130-133 | equals removal |
| HeapLists.KHeap.KMalloc | kernel/mm/kmalloc.c:61-121 | equals the model; size 0 yields no block |
| HeapLists.KHeap.NewBlock | kernel/mm/kmalloc.c:77-91 | the part that gets more memory equals the model |
| HeapLists.KHeap.TakeFit | kernel/mm/kmalloc.c:92-104 | the part that reuses a free block equals the model |
| HeapLists.KHeap.Shrink | kernel/mm/kmalloc.c:100-103 | splitting off what is left over equals the model |
| HeapLists.KHeap.KFree | kernel/mm/kmalloc.c:123-142 | equals the model; an unknown pointer is ignored |
| HeapLists.KHeap.KRealloc | kernel/mm/kmalloc.c:155-193 | equals the model: heap, memory and pointer returned |
| Ranges.OverlayPiece | kernel/cdi/storage.c:175-183 | changing part of a piece of the medium and writing the piece back changes just that part |
| Ranges.OverlayInside | kernel/cdi/storage.c:190-216 | a write that does not reach past the medium: what lies before it, the buffer, what lies behind it |
| Ranges.OverlayJoin | kernel/cdi/storage.c:190-216 | two writes one behind the other are one write |
| Storage.Device.ReadBlocks | kernel/cdi/storage.c:112-127 | either driver: a success returns the bytes of those blocks, as far as the medium has them and 28 bits of sector address reach; a failure is the driver's, or for blocks outside the device |
| Storage.Device.WriteBlocks | kernel/cdi/storage.c:181-195 | either driver: a success changes just those bytes of the medium; a failure no byte outside them, and it is the driver's, or for blocks outside the device |
| Storage.Device.ReadDrive | kernel/cdi/ata/device.c:363-388 | the ATA driver: it fails only for a reason the drive gave or without a handler, and hangs only when the run is cut off; a willing drive with a handler is read |
| Storage.Device.WriteDrive | kernel/cdi/ata/device.c:393-418 | the ATA driver, likewise |
| Storage.PlanCovers | kernel/cdi/storage.c:105-118 | without 32-bit overflow the blocks planned cover the range, and are the range when they go straight to the buffer |
| Storage.PlanWraps | kernel/cdi/storage.c:105-118 | with overflow the plan asks for more blocks than a device has, or for fewer bytes than are copied |
| Storage.OverrunsIff | kernel/cdi/storage.c:105-132 | the blocks asked for or the bytes copied exceed the buffer, whose size is computed in 32 bits, if and only if the range passes 2^32 or is unaligned and its blocks take up 2^32 bytes |
| Storage.NeededWraps | kernel/cdi/storage.c:118-118 | blocks of 512, offset 1, size 0xFFFFFFFE: the range ends below 2^32 and the buffer has size 0 |
| Storage.PlanFits | kernel/cdi/storage.c:105-127 | the blocks planned lie on the device if and only if the range does and does not start inside a block and end at the very end |
| Storage.LastBytesStray | kernel/cdi/storage.c:110-127 | the last 24 bytes of a device of two blocks: a third block is asked for |
| Storage.PlanRead | kernel/cdi/storage.c:105-118 | computes the plan |
| Storage.ReadPlanned | kernel/cdi/storage.c:112-132 | the driver call and the copy: the bytes of the range, as far as the driver reaches |
| Storage.DevRead | kernel/cdi/storage.c:89-141 | overruns a buffer if and only if the range is too long; a success returns exactly the bytes of the range, as far as the medium has them and 28 bits of sector address reach; blocks outside the device are asked for if and only if the read does not fit; a driver is called once, and the read succeeds if and only if that call does and, for one that refuses blocks outside the device, it fits; the error passed on is that call's; on a willing ATA drive it succeeds |
| Storage.LastBytesRefused | kernel/cdi/storage.c:110-128 | a driver that refuses blocks outside the device cannot read them |
| Storage.PatchBlock | kernel/cdi/storage.c:175-183 | read, change, write back: just those bytes of the medium change; a failure touches no other block |
| Storage.WriteWhole | kernel/cdi/storage.c:190-200 | the whole blocks go to their place; a failure touches no other block |
| Storage.WriteTail | kernel/cdi/storage.c:202-216 | what is left behind them goes to its place |
| Storage.WriteAligned | kernel/cdi/storage.c:190-216 | from a block boundary on: whole blocks, then the rest |
| Storage.WriteParts | kernel/cdi/storage.c:190-216 | the same, with the two parts as the code cuts them |
| Storage.WriteHead | kernel/cdi/storage.c:169-183 | the part of a range in its first block goes to its place |
| Storage.WriteSplit | kernel/cdi/storage.c:169-216 | from inside a block on: head, whole blocks, rest |
| Storage.WriteUnaligned | kernel/cdi/storage.c:169-216 | the same, with the head as the code cuts it off |
| Storage.DevWrite | kernel/cdi/storage.c:143-219 | a success puts exactly the buffer at exactly the range and changes no other byte of the medium; a failure changes no block the range does not touch; a write of a range on the device asks for no block outside it, whatever the answer, and a success of any other does; a driver that fails only by refusing them succeeds if and only if the range lies on the device; every driver call but the last has succeeded, and an error is that of the last one, or the refusal of a block outside the device; on a willing ATA drive it succeeds |
| Storage.WriteThenRead | kernel/cdi/storage.c:89-219 | a range written and then read gives what was written, for any driver; on one that fails only by refusing blocks outside the device, when both succeed; on a willing ATA drive both do, unless the range is too long |
| Storage.OnPartition | kernel/cdi/storage.c:89-219 | the whole stack on a partition of an ATA drive that ends by sector 2^28: the bytes of the partition are as before with the buffer in its place, or after a failure outside the blocks touched; no other byte of the drive changes; what is read is the buffer; on a willing drive all of it succeeds |
| AtaRegisters.DecodeEncode | kernel/cdi/ata/request.c:109-133 | a drive takes the registers for a sector address and reads count (0 for 256), drive and the low 28 address bits from them; the address asked for if and only if it is below 2^28; all registers are bytes |
| AtaRegisters.EncodeOnly | kernel/cdi/ata/request.c:109-133 | no other register values say so |
| AtaRegisters.WrapsAround | kernel/cdi/ata/request.c:109-133 | sector 2^28 is decoded as sector 0 |
| AtaRegisters.ChunksCover | kernel/cdi/ata/ata.c:174-210 | the chunks cover [start, start + count) once and in order, each between 1 and the maximum |
| AtaRegisters.SeenAsMeant | kernel/cdi/ata/ata.c:174-210 | the drive sees all chunks as meant if and only if the last one starts below 2^28; if start + count is at most 2^28 it does |
| AtaRequest.SafeExtend | kernel/cdi/ata/request.c:244-276 | the log stays safe: the data port is used only right after a status read with DRQ set and BSY clear |
| AtaRequest.WaitReady | kernel/cdi/ata/request.c:54-83 | success if and only if one of the first 50 polls, 10 ms apart, shows no BSY; all polls before it do; one more status read follows; failure after 50 busy polls |
| AtaRequest.TakeSector | kernel/cdi/ata/request.c:261-279 | one sector goes behind those already there |
| AtaRequest.PioIn | kernel/cdi/ata/request.c:198-305 | for every sequence of status bytes and interrupts: the log stays safe; the sectors that came from the port are in the buffer one behind the other; success means max(1, block_count) of them; with a matching read under way they are the sectors of the drive, as far as it has them; the log follows the protocol step by step; it fails if and only if the last interrupt did not come or the last status shows neither BSY nor DRQ, and goes on waiting only until the run is cut off; a willing drive is read within 50 status reads a sector |
| AtaRequest.PutSector | kernel/cdi/ata/request.c:383-402 | the next sector of the buffer goes out |
| AtaRequest.PioOut | kernel/cdi/ata/request.c:311-418 | likewise for writing; success means exactly block_count sectors, in order; with a matching write under way the drive holds them and no other sector has changed; protocol, failure and willing drives likewise |
| AtaRequest.CheckStatus | kernel/cdi/ata/request.c:233-259 | BSY: ask again; DRQ alone: transfer; neither: failed |
| AtaRequest.InRound | kernel/cdi/ata/request.c:217-303 | one round of the state machine, reading |
| AtaRequest.OutRound | kernel/cdi/ata/request.c:324-416 | one round of the state machine, writing |
| AtaRequest.RequestRead | kernel/cdi/ata/request.c:528-560 | the encoded address and count are written to the registers unless the wait fails; what the drive hands over lands in the buffer, and is the sectors at the address modulo 2^28; a failure has its reason in the log, and a willing drive serves it |
| AtaRequest.RequestWrite | kernel/cdi/ata/request.c:528-560 | the encoded address and count are written to the registers unless the wait fails; what the drive takes is the buffer, and lies at the address modulo 2^28; failures and willing drives likewise |
| Ata.ReadChunk | kernel/cdi/ata/ata.c:174-210 | one round of the loop, reading |
| Ata.WriteChunk | kernel/cdi/ata/ata.c:174-210 | one round of the loop, writing |
| Ata.ReadSectors | kernel/cdi/ata/ata.c:120-213 | the commands written are the encoded chunks in order, only the last one missing if the wait before it failed; the drive decodes them as the chunks if and only if the last one starts below 2^28; each sector handed over is the one its command names and lands in its place; all after a success, and a failure stops within the last chunk, for a reason in the log; a willing drive serves any request |
| Ata.WriteSectors | kernel/cdi/ata/ata.c:120-213 | likewise for writing; each sector of the drive holds the last of the sectors taken whose command names it, or what was there; a willing drive serves any request |
| Ata.SentAsMeant | kernel/cdi/ata/ata.c:174-210 | for any start and size: a drive decodes the commands of a whole request as its chunks if and only if the last one starts below 2^28 |
| Ata.SectorMeant | kernel/cdi/ata/ata.c:174-210 | a sector of a request below 2^28 is read from and written to its place, also in a chunk that reaches beyond |
| Ata.FetchedLow | kernel/cdi/ata/ata.c:174-210 | what a read yields for places below 2^28 is what the drive has there |
| Ata.StoredLow | kernel/cdi/ata/ata.c:174-210 | a write that ends by sector 2^28 puts the sectors in their places and changes no other |
| Ata.ReadBlocks | kernel/cdi/ata/device.c:363-388 | 0 on success, 1 on failure, -1 without handler; the block count is cut to 32 bits; a success reads the sectors its commands name, which below sector 2^28 are those bytes of the drive, inside the volume or not; 1 only for a reason in the log, and 0 from a willing drive |
| Ata.WriteBlocks | kernel/cdi/ata/device.c:393-418 | likewise; just the sectors written so far change, where their commands name, all after a success; up to sector 2^28 that is in their places; 1 and 0 likewise |
| QsortModel.ScansStop | lib/libc/functions/stdlib/qsort.c:62-81 | the sentinels stop both scans inside the segment, and a round keeps or completes the split |
| QsortModel.MedianSplits | lib/libc/functions/stdlib/qsort.c:57-60 | median-of-three leaves second <= first <= last: the sentinels |
| QsortModel.PartLoopParts | lib/libc/functions/stdlib/qsort.c:62-81 | when the scans have crossed, nothing above the pivot is left of `i` and nothing below it right of `j` |
| QsortProof.LoopShuffled | lib/libc/functions/stdlib/qsort.c:33-115 | for every total preorder: a permutation of its own range, nothing else touched |
| QsortProof.RangeElements | lib/libc/functions/stdlib/qsort.c:33-115 | the range holds the same elements as before, with multiplicity |
| QsortProof.PartitionAround | lib/libc/functions/stdlib/qsort.c:57-83 | the partition splits around the pivot: not above, equal, not below |
| QsortProof.InsertionSorts | lib/libc/functions/stdlib/qsort.c:100-110 | the insertion loop sorts |
| QsortProof.LoopSorts | lib/libc/functions/stdlib/qsort.c:46-113 | sorted, whatever the elements: always, if the left recursion starts at the segment, and for up to 17 elements as written |
| QsortLimit.CleanCut | lib/libc/functions/stdlib/qsort.c:57-83 | the outcome of partitioning a segment whose middle element separates it |
| QsortLimit.StaysUnsorted | lib/libc/functions/stdlib/qsort.c:85-90 | for every size from 18 on, an array that is left unsorted |
| QsortLimit.SortsExactly | lib/libc/functions/stdlib/qsort.c:33-115 | every array of n numbers is sorted if and only if n <= 17 |
| QsortProof.FirstCutLasts | lib/libc/functions/stdlib/qsort.c:33-115 | for any number of elements above 7: the pivot of the first partition ends up with nothing above it before it and nothing below it behind it |
| Qsort.MemSwap | lib/libc/functions/stdlib/qsort.c:22-25 | swaps two elements |
| Qsort.MedianFirst | lib/libc/functions/stdlib/qsort.c:57-60 | in place, equals the model |
| Qsort.Scan | lib/libc/functions/stdlib/qsort.c:64-73 | both scans end where the model says, inside the segment |
| Qsort.PartitionArray | lib/libc/functions/stdlib/qsort.c:50-83 | in place, equals the model |
| Qsort.SinkArray | lib/libc/functions/stdlib/qsort.c:102-109 | in place, equals the model |
| Qsort.InsertionArray | lib/libc/functions/stdlib/qsort.c:100-110 | in place, equals the model |
| Qsort.SortRange | lib/libc/functions/stdlib/qsort.c:33-115 | loop and recursion in place equal the model; terminates; no access outside the range |
| Qsort.QuickSort | lib/libc/functions/stdlib/qsort.c:33-115 | a permutation of the range in place, nothing else touched, sorted for up to 17 elements, and for any more than 7 cut in two around some element |
| StrTo.StepFits | lib/libc/functions/_PDCLIB/strtox_main.c:25-26 | the test on limval and limdigit is the test whether the next value is within the limit |
| StrTo.NumValGrows | lib/libc/functions/_PDCLIB/strtox_main.c:31-38 | once over the limit, always over the limit |
| StrTo.StrtoxMain | lib/libc/functions/_PDCLIB/strtox_main.c:17-46 | all digits are consumed; the value is theirs up to the limit and `error` beyond, with the sign reset; no accepted step passes the limit; no digit, no position |
| StrTo.StrtoxPrelim | lib/libc/functions/_PDCLIB/strtox_prelim.c:14-45 | the loop and branches compute start, sign and base |
| StrTo.SignedDigits | lib/libc/functions/stdlib/strtol.c:24-34 | the value of the digits, signed and clamped to long |
| StrTo.Strtol | lib/libc/functions/stdlib/strtol.c:18-35 | the mathematical value clamped to long, the end past the last digit or at the start without one; 0 and no end for a bad base |
| StrTo.Strtoul | lib/libc/functions/stdlib/strtoul.c:18-27 | the value up to ULONG_MAX, negated modulo 2^32 for a minus sign |
| StrTo.PrefixOn | lib/libc/functions/_PDCLIB/strtox_prelim.c:14-45 | on any text of white space, a sign or none, and a rest: the sign is minus if and only if it is -; 0x, 0 or else selects the base |
| StrTo.NumberFound | lib/libc/functions/_PDCLIB/strtox_prelim.c:14-45 | the digits of a number in a text are found behind white space, sign and base prefix, up to the first other character |
| StrTo.ReadNumber | lib/libc/functions/stdlib/strtol.c:18-35 | strtol and strtoul of white space, sign, base prefix, digits and anything else: the clamped value with its sign, and modulo 2^32; the end is past the digits |
| StrTo.DigitIsPlace | lib/libc/functions/_PDCLIB/digits.c:11-11 | the digit of a character is its place in the table, case ignored |
| StrTo.SpacesAre | lib/libc/functions/_PDCLIB/strtox_prelim.c:16-16 | which characters are skipped |
| StrTo.ZeroLostIff | lib/libc/functions/_PDCLIB/strtox_prelim.c:22-38 | in base 0 or 16 a text whose number starts with 0 reads as no number if and only if an x and no hex digit follows it, or, in base 0, neither x nor octal digit |
| StrTo.ZeroLost | lib/libc/functions/_PDCLIB/strtox_prelim.c:22-38 | so for 0 in base 0 and 0x in base 16 |
| NumFmt.TableIs | lib/libutil/src/format.c:26-26 | what the digit table holds |
| NumFmt.FewDigits | lib/libutil/src/format.c:29-42 | a number below 2^63 has at most 63 digits, so the buffer of 65 suffices |
| NumFmt.PutDigits | lib/libutil/src/format.c:37-42 | the loop leaves the digits before the terminating NUL, or reads before the digit table if and only if the remainder is negative |
| NumFmt.Pad | lib/libutil/src/format.c:44-46 | the loop writes the missing padding |
| NumFmt.CopyOut | lib/libutil/src/format.c:48-50 | the loop copies up to the first NUL |
| NumFmt.Numfmt | lib/libutil/src/format.c:24-54 | padding, then the digits in the base as the table prints them; nothing for a bad base; a negative number comes out as 0 if the base divides it and else reads before the table |
| NumFmt.MinusOne | lib/libutil/src/format.c:38-40 | the remainder of -1 by 10 is -1 |
| NumRoundTrip.ReadAtLeast | lib/libutil/src/format.c:37-42 | all printed digits together read as at least the number, and as the number if and only if all are below 23 |
| NumRoundTrip.ReadPartIff | lib/libutil/src/format.c:24-54 | what is read of the printed digits is the number if and only if all its digits are below 23 |
| NumRoundTrip.TextReads | lib/libutil/src/format.c:44-50 | padding with blanks or zeros does not change what is read |
| NumRoundTrip.PrintThenRead | lib/libutil/src/format.c:24-54 | numfmt then strtoul: below ULONG_MAX the number comes back if and only if its digits are below 23; always in base 2 to 23 |
| NumRoundTrip.Digit23 | lib/libutil/src/format.c:26-26 | 23 in base 24 is printed as O and not read at all |

## Left out

- InitrdParser.ParseDir: takes a bound on the number of entries, because an image may link its entries in a circle and the kernel then never returns; `InitrdCircle.NeverEndsIff` says exactly when, and `InitrdCircle.MountAny` that the bound otherwise changes nothing.
- InitrdCheck.CheckDir: takes the same bound; `InitrdCircle.CheckNeverEndsIff` says exactly when the code never returns.
- InitrdParser.ParseFile: does not look at file contents, as the code does not; that they lie in the image is the separate condition `InImage`.
- ProcessTable.Kernel.Create: is about pids below 2^32; after the pid counter wraps, lookups may find the wrong process.
- ProcessModel: ticks do not wrap at 2^32; a wake-up tick does, as timer_sleep computes it.
- AtaRequest.PioIn: a run is cut off after any number of status reads and interrupts, because a drive may stay busy for ever; packet devices are left out.
- AtaRequest.PioOut: the same.
- Ata.ReadSectors: the PIO path; the DMA path differs in its chunk limit, which `AtaRegisters.ChunksCover` leaves open, and in a transfer by hardware.
- Ata.WriteSectors: the same.
- Storage.DevRead: the temporary buffer is taken as fresh for each call; the code keeps one between calls. What a driver does with a buffer that is too small is not modelled.
- Storage.DevWrite: on an ATA drive, what is written is stated for ranges whose blocks end by sector 2^28; `Ata.WriteBlocks` says where the sectors of the others go.
- ProcessTable.Kernel.Destroy: what the other operations do to a list whose tail pointer dangles is stated for pm_activate, pm_schedule and pm_unblock only.
- RingBuffer.Ring.Create: kmalloc finds memory for every size but 0.
- Qsort.QuickSort: elements are values of any type instead of `size` bytes; size 0 and a null array, which the code ignores, have no counterpart.
- PageBitmap.Bitmap.AllocPhysRange: a range around the end of the address space is taken and counted, but not recorded as live.
- HeapLists.KHeap.KMalloc: the memory that km_alloc_range returns is a parameter, and that it is new is the condition `FreshChunks`; the list of unused nodes is one supply of fresh nodes.
- HeapModel: kcalloc, which only clears the block.
- Records that the C code links by pointers are indices into a sequence; updates through the links are updates of that sequence.
- Page tables are reached directly instead of through the working-table window; pages for new tables come from a set of free pages; TLB and CR3 are left out.
- The copies of kernel directory entries in other address spaces.
- Interrupts, port addresses, delays, debug output, kernel stacks and register frames.
- Time slices and cooperative mode: every tick reschedules.
- Reading initrd files through the vfs, which advances the position twice.
- mm_alloc_dma and mm_free_dma, which pass a byte length as a page count.
- kernel/util/list.c, the vfs, tty, devices other than ATA, ELF loading apart from its failing destroy, ATAPI, SCSI and DMA.
- The Windows calls and log files of mkinitrd and chkid: file contents are byte sequences, the output grows with a write position.
- strafmt and printf on top of numfmt, bsearch, and the single-loop string functions: easy members.
