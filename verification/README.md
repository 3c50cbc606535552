# A model of the Linux 0.11 kernel

This project models the parts of the Linux 0.11 kernel (`linux-0.11/`) that keep shared structures
right under change: the paging code, the block device queue, the file storage stack, the buffer cache,
exec, the kernel allocator, the scheduler, pipes, terminals, the console, and directories. What the
kernel updates in place is an array or a field here, its functions are methods with loops, and each
method is proved against a mathematical view of the state. The properties that make a component
correct are lemmas about that view, preserved invariants, and theorems over whole runs.

The kernel is not preemptive: in kernel mode control changes hands only when a call sleeps or an
interrupt arrives. In the buffer cache, the request queue, pipes and terminals a call that may sleep is
modelled as a sequence of atomic steps, one from each resumption to the next sleep, and a run
interleaves the steps of all calls in any order. After a sleep nothing is assumed but the invariant,
which is why the code has to recheck its guards. The file operations, exec and the directory calls are
atomic here: the sleeps inside them are left out, and where one of them does harm, in `create_block`, the
harm is a theorem of its own (`BlockRace`).

## Components

**Paging** (`PageWord`, `PageTables`, `FreeFrames`, `Fork`, `Faults`, `AddressSpaces`, `Memory`,
`TaskSlots`, `Executables`, `TaskRuns`, `Tasks`, `StaleText`). Page directory, page tables, frames and
`memory_map[]` are updated by fork, exit, exec, page faults and page sharing. A page-table word is a
record of its fields, as in section 5.2.4 of the Intel 80386 Programmer's Reference Manual, and the masks
and comparisons of the code are proved to be updates and tests of those fields. The invariant says that the count of every managed frame is the number of
entries that map it plus what the kernel itself holds of it. Isolation, exact counts, and a fork
that fails halfway follow from it. An operation runs out of memory if and only if the frames it needs
are more than are free. `Run` takes every sequence of operations and returns its history, in which each
step is tied to its operation: what a process sees changes only by what it does itself.

**Request queue** (`Elevator`, `Requests`). A request goes into the linked list of its device at its
elevator position. On sequences of keys the scan is a sorted insert into one of two ascending runs.
How long a request waits is a number that arrivals never raise and completions always lower.

**File storage** (`BlockTree`, `BlockOrder`, `BlockGrowth`, `BlockRelease`, `BlockRace`, `FileBytes`,
`FileSystem`). The zone map, the tree of direct, indirect and double indirect blocks and the byte-level
read and write loops. All blocks of all files are distinct, in range and marked. A write can therefore
not disturb a block that holds pointers, and files refine plain byte sequences, holes and the bytes past the end included. The
bytes of a file are those of its blocks in the order of the disk format.

**Buffer cache** (`BufferLists`, `CacheState`, `CacheRuns`, `BufferCache`). Hash chains and the circular free list
over the same heads, and `getblk`, `bread`, `brelse` and `sync_dev` as calls that sleep and recheck.
The value of a block is its cached copy if that is up to date, else the disk's. No step but a store
changes a value, and a store changes one.

**exec** (`ArgStrings`, `ExecArgs`, `Execve`). Argument strings are copied backwards over split pages,
mapped at the top of the new data segment and found again by a forward walk that builds the pointer
tables. What the program finds through its tables is what was passed.

**Kernel allocator** (`Buckets`, `Malloc`). Free objects are linked through their own first words.
Every slot of every bucket page is free once or live, and live objects do not overlap.

**Scheduler** (`Counters`, `Sched`). Time slices are bounded and every runnable process runs within a
number of ticks computed from the priorities.

**Pipes** (`Pipe`), **line discipline** (`LineEditor`, `TtyQueue`, `Tty`), **console** (`Screen`,
`Console`, `ControlSequences`, `ControlFunctions`). Ring buffers against byte streams and against a line editor on
sequences (canonical input as in IEEE Std 1003.1-2017 XBD section 11.1.6); video memory with a moving
window against a plain terminal with a grid of cells. What each character and control function (section
8.3 of ECMA-48) does to every cell and to the cursor is a lemma about the bytes written.

**Directories** (`Directories`, `Links`, `Namei`, `Overflows`). Names, entries and link counts over all inodes of a
device.

`Bytes`, `Sequences` and `Sets` hold the machine types, removal from a sequence and sizes of sets.

## Where the code falls short of its intent

- A script run with an empty `argv`: the script's name is copied but not counted in `argc`
  (`exec.c:320`, where `--argc` goes below zero). `Execve.EmptyArgvLosesFilename` is the input;
  `Execve.ArgcCounts` and `Execve.PassArguments` say that the tables are right if and only if there is no
  script or `argv` is not empty.
- `i_nlinks` is one byte and neither `sys_link` nor `sys_mkdir` looks at it. `Namei.LinkOverflows` and
  `Namei.MkdirOverflows` are the failures; `Links.LinkStep`, `Links.MkdirStep`, `Namei.Volume.Link` and
  `Namei.Volume.Mkdir` give the exact condition: fewer than 255 before the call. `Overflows.LinkTooOften`
  and `Overflows.MkdirTooOften` get there from a fresh device.
- `sys_mkdir` releases its block twice when `add_entry` fails (`namei.c:580-586`). This is the outcome
  `Panic` of `Namei.Volume.Mkdir`, with the exact condition under which it is reached.
- `new_block` can set a padding bit past the last valid zone before it returns 0 (`bitmap.c:112-118`).
  Map equalities are over valid zones (`BlockGrowth.FailedGrows`).
- `insert_into_queues` stores through `b_next` when the bucket was empty (`buffer.c:178-180`). The
  intended, guarded store is modelled.
- The overflow test of `copy_strings` compares an unsigned value with 0 (`exec.c:148`). That all
  strings fit is a precondition.
- A process whose slice ends in kernel mode keeps running with counter 0 until it returns to user mode
  (`sched.c:376-381`). The fairness bound counts ticks in user mode.
- `sys_nice` does not look at the counter. `Counters.NiceLeavesBound` is a process left above the bound of
  its new priority; `Counters.NiceKeepsBounds` and `Sched.Scheduler.Nice` give the exact condition, a
  counter of at most twice the new priority less one. Recharging never brings such a counter back
  (`Counters.RechargeNeverRestores`): twice the priority, one above the bound, is where it ends up.
- `_bmap` looks at a place, sleeps in `new_block`, and stores without another look. Two processes that
  create the same block lose one (`BlockRace.TwoCreates`); `BlockRace.StoreAfterSleep` gives the exact
  condition under which no block is lost, that the place is still empty at the store.
- `free_block` leaves a block marked whose buffer somebody else holds (`bitmap.c:72-76`), and `truncate`
  forgets it all the same. `BlockRelease.TruncateUndoesGrowth` says that the map is restored if and only
  if there is no such block.
- A canonical read does not stop at a newline, though XBD 11.1.6 gives a reader no more than one line.
  `LineEditor.TwoLinesAtOnce` is such a read, `LineEditor.OneLineGiven` the exact condition for one line.
- `write_verify` copies a shared page that a task has written to, and the copy is not marked dirty
  (`memory.c:298`). `try_to_share` takes it for a page of the file and hands it on. `StaleText.StaleShare`
  gets there from boot; `Tasks.TaskTable.Step` and `Executables.VerifiedFresh` give the exact condition.

`change_ldt` ignores the result of `put_page`, rightly: every live process owns a page table, so freeing
its old address space leaves a frame for the new one (`Tasks.TaskTable.PlaceArgPages`).

## Model

| member | source | states |
|---|---|---|
| PageWord.DecodeInjective | linux-0.11/mm/memory.c:214-238 | A page-table word is determined by its frame number, its present, writable, user and dirty bits and the rest: reading words as records loses nothing |
| PageWord.MasksAreFieldUpdates | linux-0.11/mm/memory.c:219-225 | Clearing or setting bit 1 of a word changes its writable field and nothing else, and masking the low bits leaves the frame number |
| PageWord.OrSeven | linux-0.11/mm/memory.c:205-206 | A page-aligned address with 7 is a present, writable user page |
| PageWord.GuardsAreFieldTests | linux-0.11/mm/memory.c:340-385 | The tests on words say: present; present and read only; not both present and clean |
| PageWord.AboveLowMem | linux-0.11/mm/memory.c:228-236 | Comparing a whole present word with LOW_MEM depends on the frame number alone |
| PageTables.WritableCountIsOne | linux-0.11/mm/memory.c:169-244 | In every consistent state a writable entry of a task slot from 1 up maps a frame whose count is exactly 1 |
| PageTables.CountOneIsUnshared | linux-0.11/mm/memory.c:284-287 | A frame whose count is 1 is mapped by one entry only, so giving that entry write access in place exposes nobody |
| PageTables.AtMostOnePerSlot | linux-0.11/mm/memory.c:236 | A frame is mapped at most once in each of the 63 slots, so a count never exceeds 63 and the byte counter cannot overflow |
| PageTables.FreeIsUnreferenced | linux-0.11/mm/memory.c:64-90 | A frame get_free_page may hand out is in no page table and is no page table |
| PageTables.WritePteRefs | linux-0.11/mm/memory.c:139-141 | Writing one entry moves the number of references to a frame by exactly what the old and the new entry name |
| PageTables.PteStep | linux-0.11/mm/memory.c:252-277 | Counts that follow an entry write keep the whole invariant: counts equal references, tables are private, writable means unshared |
| PageTables.UnmapStep | linux-0.11/mm/memory.c:137-144 | Dropping an entry and decrementing its frame keeps the invariant, and the decrement never meets a zero count |
| PageTables.InstallTableStep | linux-0.11/mm/memory.c:201-206 | A zeroed frame the kernel holds becomes a page table, and only that directory entry changes |
| PageTables.RemoveTableStep | linux-0.11/mm/memory.c:145-147 | An emptied page table has count 1, and giving its frame back keeps the invariant |
| PageTables.AllocStep | linux-0.11/mm/memory.c:64-90 | Giving out a free frame keeps the invariant and changes what no entry shows |
| Fork.CopyEntryStep | linux-0.11/mm/memory.c:214-237 | Sharing one entry between parent and child keeps the invariant and leaves the count of the frame at most 63 |
| Fork.CopyNextEntry | linux-0.11/mm/memory.c:212-238 | The inner copy loop: after entry i the child has the parent's first i + 1 entries of that table, read only on both sides where counted |
| Fork.CopyNextTable | linux-0.11/mm/memory.c:191-239 | The outer copy loop advances by a table, also when the parent has none there |
| Fork.TablesCopiedNext | linux-0.11/mm/memory.c:201-206 | Wherever the parent has a page table the child gets one, so a child of a process that owns a table owns one |
| Faults.UnprotectStep | linux-0.11/mm/memory.c:284-287 | Write access to an unshared page changes no contents anybody sees and keeps the invariant |
| Faults.ReplaceStep | linux-0.11/mm/memory.c:288-300 | Moving an entry to a copy of its page keeps the invariant, what this entry shows, and every other entry |
| Faults.StoreStep | linux-0.11/mm/memory.c:310-326 | A store through a writable entry shows up through that entry and through no other |
| Faults.SharedFromSteps | linux-0.11/mm/memory.c:366-409 | Page sharing maps the same frame read only on both sides and leaves every other entry alone |
| AddressSpaces.CopiedMeansChildSees | linux-0.11/kernel/fork.c:45-76 | After the copy the child sees at every offset what the parent saw, and no other task sees anything new |
| AddressSpaces.ForkCounts | linux-0.11/mm/memory.c:236 | Each counted page the child shares has gained exactly one reference |
| AddressSpaces.SameMappingsSameCounts | linux-0.11/mm/memory.c:169-239 | Two consistent states with the same mappings and kernel holdings have the same memory_map: the counts are no independent state |
| AddressSpaces.RollbackRestoresCounts | linux-0.11/kernel/fork.c:69-73 | However far a failing table copy got, freeing the child's tables restores every count and every view; only write protection of the parent remains |
| Memory.Machine.constructor | linux-0.11/mm/memory.c:479-498 | The state after memory_init satisfies the invariant: free exactly from start_mem to the end of memory |
| Memory.Machine.GetFreePage | linux-0.11/mm/memory.c:64-90 | The highest free frame, zeroed and marked, so that one frame less is free; 0 exactly when no frame is free |
| Memory.Machine.FreePage | linux-0.11/mm/memory.c:96-111 | One reference less for a frame above low memory and nothing else; a free or absent frame is a panic, so excluded |
| Memory.Machine.FreePageTables | linux-0.11/mm/memory.c:117-150 | The range is unmapped, its table frames are free again, and nothing outside the range changes |
| Memory.Machine.CopyPageTables | linux-0.11/mm/memory.c:169-244 | Fails if and only if fewer frames are free than the parent has page tables in the range; on success the whole range is shared and that many frames are used up; on failure a known number of tables is copied, and memory is full |
| Memory.Machine.CopyOneEntry | linux-0.11/mm/memory.c:214-237 | A present entry is shared with the invariant kept; an absent one changes nothing |
| Memory.Machine.PutPage | linux-0.11/mm/memory.c:252-277 | The page is mapped at one entry and no other entry changes; fails if and only if a table is needed and no frame is free |
| Memory.Machine.UnWpPage | linux-0.11/mm/memory.c:279-301 | The entry becomes writable and shows the same page; an unshared page stays in place, any other is left with one reference less for a free frame; fails if and only if the page is shared and no frame is free, and then nothing has changed |
| Memory.Machine.WriteVerify | linux-0.11/mm/memory.c:328-346 | Afterwards the kernel can write to the page without touching anybody else's; it fails if and only if the page is present, read only and shared and no frame is free |
| Memory.Machine.TryToShare | linux-0.11/mm/memory.c:366-409 | Shares or runs out of memory exactly when the other entry is present, clean and counted; out of memory means that a table is needed and no frame is free |
| Memory.Machine.Store | linux-0.11/mm/memory.c:310-326 | A user store changes one word of what one entry shows, and marks that entry dirty |
| Tasks.TaskTable.CopyMem | linux-0.11/kernel/fork.c:45-76 | Succeeds if and only if there is a free frame for every page table the parent has in its range. Success: the child sees what the parent sees, and just those frames are used up. Failure: memory_map and every view are as before |
| Tasks.TaskTable.CopyProcess | linux-0.11/kernel/fork.c:83-168 | fork succeeds if and only if the free frames are at least one plus the page tables of the parent, and takes that many. It gives the child the parent's segments and contents; when it fails, the slots, the counts, the kernel's holdings and all views are as they were |
| Tasks.TaskTable.DoExit | linux-0.11/kernel/exit.c:110-115 | Nothing of the exiting slot is mapped any more and no other slot sees a change |
| Tasks.TaskTable.Release | linux-0.11/kernel/exit.c:19-35 | The slot is free and the kernel no longer holds its structure's page |
| Tasks.TaskTable.Exec | linux-0.11/fs/exec.c:383-411 | The new image sees exactly the argument pages at the top of its data segment, and a zeroed page where the pointer tables are first stored to if no argument page is there; every other entry of its sixteen tables is absent; nobody else sees a change. The process ends instead if and only if the frames that are free or only the old image's are too few for one table and that page |
| Tasks.TaskTable.PlaceArgPages | linux-0.11/fs/exec.c:400-401 | The old tables are gone and each argument page is mapped: put_page cannot fail here, because every live process owns a page table, whose frame has just become free |
| Tasks.TaskTable.SharePage | linux-0.11/mm/memory.c:419-438 | A page is shared, or memory runs out at it, exactly when the file has a second user and another live slot runs it and has the page counted and clean. It shows that slot's contents, and no other entry of anybody, its own included, shows anything new; otherwise nothing changed |
| Tasks.TaskTable.ShareWith | linux-0.11/mm/memory.c:419-438 | One turn of the search: the page of this slot is shared exactly when it can be |
| Tasks.TaskTable.DoNoPage | linux-0.11/mm/memory.c:440-472 | The fault ends with a zero page exactly where there is nothing to load, with another slot's page exactly when one can be shared, else with the file's page, and no other entry of anybody shows anything new; the task is killed if and only if the frames this takes are more than are free, and no other slot sees a change |
| Tasks.TaskTable.UserWrite | linux-0.11/mm/memory.c:310-326 | A user write changes that word for the writer and nothing that any entry of anybody shows, and leaves the page dirty; the writer is killed if and only if the page is read only and shared and no frame is free |
| Tasks.TaskTable.VerifyArea | linux-0.11/kernel/fork.c:25-43 | One page of verify_area: the task sees what it saw and may write there; a shared page is left for a copy marked clean; killed if and only if that copy is needed and no frame is free |
| Tasks.TaskTable.GetArgPages | linux-0.11/fs/exec.c:427-432 | Argument pages were free, are each held once by the kernel and are nobody's; this fails if and only if fewer frames are free than pages are asked for, and then all counts and holdings are as before |
| Tasks.TaskTable.FreeArgPages | linux-0.11/fs/exec.c:427-432 | Every argument page is free again and no other count or holding changes |
| Tasks.TaskTable.Run | linux-0.11/mm/memory.c:169-409 | Over every run of fork, exit, wait, exec, faults, writes and write_verify, state by state: each operation that can happen has its effect, out of memory exactly when frames are too few; what a slot sees changes only by an operation on that slot; writable entries map frames with count exactly 1; every mapped frame has a count from 1 to 63; and without write_verify the clean pages of every executable hold what its file holds |
| Tasks.TaskTable.LoadProgram | linux-0.11/fs/exec.c:349-436 | exec as a whole: nothing happens if there are too few frames for the argument pages, the task ends if there are too few for its new image, else it sees the argument pages and runs the new file |
| Tasks.TaskTable.Step | linux-0.11/mm/memory.c:366-409 | From a state where the clean pages of every executable hold what its file holds, one operation leads to another such state if and only if it is not a write_verify on a shared dirty page of an executable that differs from the file |
| Executables.SharerIsFresh | linux-0.11/mm/memory.c:366-409 | In such a state a page another task running the same file can share holds what the file holds: a page a task has written to since it was loaded is not handed on |
| Executables.TouchedFresh | linux-0.11/mm/memory.c:440-472 | Loading or sharing a page leads to such a state again |
| Executables.VerifiedFresh | linux-0.11/mm/memory.c:288-300 | write_verify keeps such a state if and only if the page it copies is not a dirty one of an executable that differs from the file |
| StaleText.StaleShare | linux-0.11/mm/memory.c:288-300 | From boot with 64 free frames: a task stores into a page of its executable, its child has write_verify copy that page, and a third task that starts the executable is given the stored word |
| Elevator.InsertIsSortedInsert | linux-0.11/kernel/blk_drv/ll_rw_blk.c:85-92 | The scan of add_request is a sorted insert into the current sweep or into the waiting run, and never displaces the request in service |
| Elevator.SweepIsMaximal | linux-0.11/kernel/blk_drv/ll_rw_blk.c:85-89 | The sweep is the longest ascending prefix: it ends at a descent |
| Elevator.InsertKeepsRuns | linux-0.11/kernel/blk_drv/ll_rw_blk.c:85-92 | An insertion keeps the queue at two ascending runs, extends one and leaves the other and the split alone |
| Elevator.RunsGoUp | linux-0.11/kernel/blk_drv/blk.h:40-45 | Within a run reads stand before writes, and requests of one kind go up by device and then by sector |
| Elevator.CompleteKeepsRuns | linux-0.11/kernel/blk_drv/blk.h:117-139 | A completion keeps two runs; when the sweep ends the waiting run becomes the sweep |
| Elevator.InsertKeepsWait | linux-0.11/kernel/blk_drv/ll_rw_blk.c:85-92 | No arrival makes a queued request wait longer |
| Elevator.CompleteLowersWait | linux-0.11/kernel/blk_drv/blk.h:117-139 | Every completion strictly lowers the wait of each request still queued |
| Elevator.ServedWithinWait | linux-0.11/kernel/blk_drv/blk.h:117-139 | Over every run with more completions than its wait a request has been served |
| Elevator.NoStarvation | linux-0.11/kernel/blk_drv/ll_rw_blk.c:64-94 | However requests keep arriving, a queued request is served within twice as many completions as there are distinct keys |
| Elevator.RunConserves | linux-0.11/kernel/blk_drv/ll_rw_blk.c:64-94 | Over every run, what was queued plus what arrived is what completed plus what is queued, and the shape holds at the end |
| Requests.FindPlace | linux-0.11/kernel/blk_drv/ll_rw_blk.c:85-89 | The walk over the linked list stops at the position the order prescribes |
| Requests.BlockLayer.constructor | linux-0.11/kernel/blk_drv/ll_rw_blk.c:180-188 | All slots free and all queues empty is a consistent state |
| Requests.BlockLayer.AddRequest | linux-0.11/kernel/blk_drv/ll_rw_blk.c:64-94 | The list of one device gains the request at its elevator position; every other queue head stays, and the buffer is clean |
| Requests.BlockLayer.NewKey | linux-0.11/kernel/blk_drv/ll_rw_blk.c:96-165 | A locked buffer that is not queued has a key that no queued request has, so keys stay distinct |
| Requests.BlockLayer.MakeRequest | linux-0.11/kernel/blk_drv/ll_rw_blk.c:96-165 | On a locked buffer a command waits, ahead commands skip. On an unlocked one a read of a buffer that is up to date and a write of a clean one skip and leave it unlocked; every other is queued exactly if a slot is free for it, reads in the highest free of 32 and writes in the highest free of the first 21, with command 0 for reads and 1 for writes, and otherwise waits for a slot or, if ahead, skips |
| Requests.BlockLayer.Resume | linux-0.11/kernel/blk_drv/ll_rw_blk.c:127-164 | A waiting request gets a slot a write may use only below slot 21, or waits on, or (read or write ahead) is dropped with the buffer unlocked |
| Requests.BlockLayer.EndRequest | linux-0.11/kernel/blk_drv/blk.h:117-139 | The request in service leaves its queue, its slot is free, its buffer unlocked with the status the driver gave |
| BlockTree.PlaceOfInjective | linux-0.11/fs/inode.c:82-140 | Different logical blocks have different places in the tree of direct, indirect and double indirect words |
| BlockOrder.PlaceInOrder | linux-0.11/fs/inode.c:72-149 | The place of logical block n is the n-th in the order of the disk format: seven zones, the indirect block's words, then the words of each block the double indirect block names |
| BlockOrder.FileInOrder | linux-0.11/fs/truncate.c:11-74 | The contents of a file are the bytes of those blocks one after the other, cut at the size |
| BlockTree.AttachAt | linux-0.11/fs/inode.c:83-145 | Storing a new block number at one place changes what every file has at that place only, through all three levels |
| BlockTree.AttachOk | linux-0.11/fs/inode.c:83-145 | Attaching a fresh block keeps the invariant: all blocks of all files are distinct, in range and marked used |
| BlockTree.AttachKeepsBytes | linux-0.11/fs/inode.c:83-145 | Attaching changes no byte of any file: a hole and a cleared block read the same |
| BlockTree.WriteDataBytes | linux-0.11/fs/file_dev.c:69-81 | Writing a block that holds file bytes changes that kilobyte of that file and no byte of any other |
| BlockGrowth.PathMeetsOnlyOwnLeaf | linux-0.11/fs/inode.c:82-147 | Growing at block n never fills the place of another block m |
| BlockGrowth.AttachGrows | linux-0.11/fs/inode.c:72-149 | Allocation followed by attachment is one step of growth: the map gains exactly the attached block |
| BlockGrowth.FailedGrows | linux-0.11/fs/bitmap.c:112-118 | A new_block that fails, even with a padding bit set, is no growth over valid zones |
| BlockGrowth.GrownTrans | linux-0.11/fs/inode.c:72-149 | Steps of growth compose: blocks are never moved, replaced or shared |
| BlockGrowth.GrownMapsOthers | linux-0.11/fs/inode.c:72-149 | Growing at n leaves bmap(m) of the same file for every other m, and of every other file, as it was |
| BlockRace.StoreAfterSleep | linux-0.11/fs/inode.c:83-88 | create_block stores the number of the new block after a sleep without another look: every block stays in its file if and only if the place is still empty; otherwise the block that was there stays marked and is in no file |
| BlockRace.TwoCreates | linux-0.11/fs/inode.c:83-88 | Two processes create the same block at the same time: the block the first one stored is lost, marked for ever |
| BlockRelease.StillMarked | linux-0.11/fs/truncate.c:11-74 | While a tree is being released a block not yet released is still marked and unchanged: "bit already cleared" cannot happen |
| BlockRelease.ReleaseStep | linux-0.11/fs/truncate.c:11-74 | Each release clears one bit, of one block of the tree, that was not released before, unless somebody else holds its buffer: then the bit stays |
| BlockRelease.AllReleased | linux-0.11/fs/truncate.c:53-74 | When every place is released the file is empty, its blocks are exactly the ones unmarked, those held elsewhere excepted, and the invariant holds |
| BlockRelease.OtherFileKept | linux-0.11/fs/truncate.c:53-74 | No block of another file has moved |
| BlockRelease.GrowthAddsOwned | linux-0.11/fs/inode.c:156-159 | However an empty file grew, the map is the old map plus exactly the blocks the file has |
| BlockRelease.TruncateUndoesGrowth | linux-0.11/fs/truncate.c:53-74 | Any growth from an empty file followed by truncate restores the map over valid zones if and only if nobody else holds a buffer of one of its blocks |
| FileBytes.WrittenBlock | linux-0.11/fs/file_dev.c:56-86 | One turn of the write loop extends what has been written by exactly the bytes put into one block |
| FileBytes.WrittenContents | linux-0.11/fs/file_dev.c:48-90 | After a write the file is the old contents, extended with zeros up to the start, with the bytes laid over it |
| FileBytes.WrittenZeroPast | linux-0.11/fs/bitmap.c:120-128 | Bytes past the end of every file stay zero, which is why extending reads as zeros |
| FileBytes.WrittenOtherContents | linux-0.11/fs/file_dev.c:48-90 | No other file changes |
| FileBytes.TruncatedFiles | linux-0.11/fs/truncate.c:53-74 | Truncate makes the one file empty and leaves the rest as sequences |
| FileSystem.Device.FindFirstZero | linux-0.11/fs/bitmap.c:41-58 | The first clear bit of a map block |
| FileSystem.Device.NewBlock | linux-0.11/fs/bitmap.c:93-132 | The lowest free zone, marked and cleared; 0 exactly when all valid zones are marked |
| FileSystem.Device.FreeBlock | linux-0.11/fs/bitmap.c:60-91 | Clears that one bit, or changes nothing when somebody else holds the buffer; a zone out of range or already free is a panic, so excluded |
| FileSystem.Device.Bmap | linux-0.11/fs/inode.c:72-159 | The block number of n is element n of the file's data words in order: the seven direct zones, the words of the indirect block, the words of each block of the double indirect block. With create the file grows by what was missing and nothing else moves; 0 then means a full device |
| FileSystem.Device.FreeInd | linux-0.11/fs/truncate.c:11-30 | Releases exactly the pointer block and the blocks it names |
| FileSystem.Device.FreeDind | linux-0.11/fs/truncate.c:32-51 | Releases exactly the double indirect block and everything below it |
| FileSystem.Device.Truncate | linux-0.11/fs/truncate.c:53-74 | Regular files and directories lose exactly their tree, and the map their blocks but for those whose buffers somebody else holds; other inodes are left alone |
| FileSystem.Device.FileRead | linux-0.11/fs/file_dev.c:17-46 | The bytes of the file from f_pos, holes as zeros, with f_pos advanced and nothing on the device changed |
| FileSystem.Device.FileWrite | linux-0.11/fs/file_dev.c:48-90 | n bytes taken turn the contents into the old contents overlaid with exactly those bytes; short writes only when the device is full; nothing taken, nothing changed |
| FileSystem.Device.SysRead | linux-0.11/fs/read_write.c:72-78 | The slice of the contents from f_pos, cut at the end of the file |
| FileSystem.Device.Run | linux-0.11/fs/file_dev.c:17-90 | Over every run of writes and truncates the files are what the same operations make of plain byte sequences; an operation that is refused leaves the device alone, every other write takes all its bytes or ends with a full device, and every truncate happens |
| BufferLists.UnhashStep | linux-0.11/fs/buffer.c:146-154 | Joining the neighbours takes the buffer out of its hash chain and no other off any chain |
| BufferLists.UnfreeStep | linux-0.11/fs/buffer.c:157-162 | Joining the neighbours takes the buffer out of the circular free list, which stays one cycle |
| BufferLists.FreeStep | linux-0.11/fs/buffer.c:168-171 | The buffer becomes the last of the free list, which stays one doubly linked cycle |
| BufferLists.HashStep | linux-0.11/fs/buffer.c:173-180 | The buffer becomes the first of the chain of its block |
| BufferLists.NotOnChain | linux-0.11/fs/buffer.c:183-192 | A block not met on its chain is in no buffer |
| CacheState.CountStep | linux-0.11/fs/buffer.c:201-220 | Taking or giving up a reference keeps b_count equal to the number of calls that hold the buffer |
| CacheState.LockStep | linux-0.11/kernel/blk_drv/ll_rw_blk.c:119-126 | Locking a buffer for I/O keeps the invariant and every block's value |
| CacheState.QueueStep | linux-0.11/kernel/blk_drv/ll_rw_blk.c:71-72 | Clearing b_dirt when the write is queued changes no block's value |
| CacheState.ReadDone | linux-0.11/kernel/blk_drv/blk.h:117-139 | A completed read, good or bad, changes no block's value |
| CacheState.WriteDone | linux-0.11/kernel/blk_drv/blk.h:117-139 | A completed write changes no block's value, even if the buffer was stored into while it was under way |
| CacheState.StoreStep | linux-0.11/fs/bitmap.c:120-128 | A store changes the value of its own block and no other |
| CacheState.ClaimStep | linux-0.11/fs/buffer.c:284-290 | Giving a free, clean, unlocked buffer to a block no buffer has changes no block's value |
| CacheState.BreadReturnsValue | linux-0.11/fs/buffer.c:311-331 | A buffer bread returned holds the value of the block asked for, in every state until it is given back |
| CacheRuns.ValuesOverRun | linux-0.11/fs/buffer.c:64-331 | Over every history each block has the value stored into it last, or the one it had at the start |
| CacheRuns.NoPutsNoLog | linux-0.11/fs/buffer.c:64-331 | Without a store among the events no block changes its value |
| CacheRuns.PutsAreLogged | linux-0.11/fs/bitmap.c:120-128 | The stores that count are exactly those among the events that were allowed, in order |
| CacheRuns.HeldOverRun | linux-0.11/fs/buffer.c:201-220 | Over every history a call keeps its buffer, with its block, until it lets go itself |
| CacheRuns.ReclaimedOverRun | linux-0.11/fs/buffer.c:256-290 | Over every history, a buffer that ends up with another block was unreferenced, unlocked and clean at some moment |
| BufferCache.Cache.constructor | linux-0.11/fs/buffer.c:407-449 | The lists buffer_init lays out satisfy the invariant, and every block has its value on disk |
| BufferCache.Cache.RemoveFromQueues | linux-0.11/fs/buffer.c:146-163 | The buffer leaves its chain and the free list, and nothing else does |
| BufferCache.Cache.InsertIntoQueues | linux-0.11/fs/buffer.c:165-181 | The buffer joins the end of the free list and the front of its chain |
| BufferCache.Cache.FindBuffer | linux-0.11/fs/buffer.c:183-192 | The buffer of the block, or none exactly when no buffer has it |
| BufferCache.Cache.Choose | linux-0.11/fs/buffer.c:238-251 | The first of the least bad unreferenced buffers, none exactly when all are referenced; a clean one is better than a dirty one, and of two alike in that an unlocked one is better than a locked one |
| BufferCache.Cache.Claim | linux-0.11/fs/buffer.c:284-290 | The claimed buffer stands for the new block, once, and moves to the end of the free list; no value changes |
| BufferCache.Cache.Rename | linux-0.11/fs/buffer.c:287-290 | The buffer leaves the lists, becomes the buffer of another block and goes to the end of the free list; no other buffer changes |
| BufferCache.Cache.Repeat | linux-0.11/fs/buffer.c:234-260 | Finds the block exactly when a buffer has it; else picks an unreferenced buffer of least badness, or waits because all are referenced |
| BufferCache.Cache.ResumePicked | linux-0.11/fs/buffer.c:256-283 | After each sleep the victim is claimed exactly when it is still unreferenced, unlocked and clean and nobody brought in the block |
| BufferCache.Cache.Sync | linux-0.11/fs/buffer.c:64-92 | The pass goes on over every buffer that is not of the device, or is clean or queued for writing, up to the first locked one of the device or the first dirty one no slot is left for; at the end the second pass follows the first, and the return the second; no block's value changes |
| CacheRuns.SyncFinishes | linux-0.11/fs/buffer.c:64-92 | With no locked buffer of the device and a slot for each dirty one, a resumption ends its pass with every dirty buffer queued: the second pass follows the first, and the return the second |
| CacheRuns.BadnessRanks | linux-0.11/fs/buffer.c:229 | A buffer is less bad exactly if it is clean and the other dirty, or they agree in that and it is unlocked and the other locked; badness 0 is clean and unlocked |
| BufferCache.Cache.ResumeFound | linux-0.11/fs/buffer.c:201-220 | A found buffer is returned only if it still has the block after the wait |
| BufferCache.Cache.ResumeSlot | linux-0.11/kernel/blk_drv/ll_rw_blk.c:146-164 | With a free slot the waiting request is queued and the call goes on, without one nothing changes |
| BufferCache.Cache.ResumeRead | linux-0.11/fs/buffer.c:311-331 | bread returns the buffer exactly if it is up to date once unlocked |
| BufferCache.Cache.Release | linux-0.11/fs/buffer.c:295-305 | The reference is given up once the buffer is unlocked, and only then |
| BufferCache.Cache.Complete | linux-0.11/kernel/blk_drv/blk.h:117-139 | A read brings the disk's block in, a write puts the buffer out, the buffer is unlocked, and no block's value changes |
| BufferCache.Cache.Store | linux-0.11/fs/bitmap.c:120-128 | The value of the holder's block becomes the data stored, no other value changes |
| BufferCache.Cache.Run | linux-0.11/fs/buffer.c:64-331 | Over every interleaving of calls, completions and stores, state by state: each event that can happen has its effect and no other, and each resumed call gets exactly as far as locks and free slots let it; one buffer per block, lists intact, each block has the value stored last among the events, and a buffer from bread shows it |
| ArgStrings.FlatConcat | linux-0.11/fs/exec.c:113-182 | Copying two lists one after the other lays out their concatenation |
| ArgStrings.StringAtUnique | linux-0.11/fs/exec.c:62-75 | The string at an address is determined by memory |
| ArgStrings.TableAtUnique | linux-0.11/fs/exec.c:46-77 | The list of strings a program finds through a pointer table is determined by memory |
| ExecArgs.ArgPages.PutByte | linux-0.11/fs/exec.c:148-174 | One turn of the copy: the byte is at its place and nothing else changes; a page is taken exactly when a page boundary is crossed into a page not there yet |
| ExecArgs.ArgPages.CopyString | linux-0.11/fs/exec.c:142-175 | The bytes of one string stand in order with their null byte, across page boundaries, and nothing else in the area changes; it fails if and only if the pages this starts are more than are free |
| ExecArgs.ArgPages.CopyStrings | linux-0.11/fs/exec.c:113-182 | The strings stand in order below the old top, and nothing else in the area changes; 0 if and only if the pages they start are more than are free |
| ExecArgs.PlacePages | linux-0.11/fs/exec.c:184-212 | The area appears at the top of the data segment, every byte at its place, zeros elsewhere |
| ExecArgs.FillTable | linux-0.11/fs/exec.c:62-75 | One null-terminated table whose pointers lead to the strings in order |
| ExecArgs.CreateTables | linux-0.11/fs/exec.c:46-77 | argc and two tables that lead to the strings in order, below the strings and disjoint from them, on a word boundary |
| Execve.ParseLine | linux-0.11/fs/exec.c:298-313 | The interpreter, its last component and the rest of the line as one argument; none exactly for a blank line |
| Execve.HeaderLine | linux-0.11/fs/exec.c:292-299 | The text between "#!" and the first newline, if that comes before any null byte and in time |
| Execve.ArgcCounts | linux-0.11/fs/exec.c:318-341 | argc equals the number of strings passed if and only if there is no script or argv is not empty |
| Execve.EmptyArgvLosesFilename | linux-0.11/fs/exec.c:318-341 | A concrete script run with an empty argv: two strings are passed and one is counted |
| Execve.CopyArguments | linux-0.11/fs/exec.c:318-341 | With a script the strings are interpreter name, optional argument, filename, then the arguments from index 1; else the arguments |
| Execve.PassArguments | linux-0.11/fs/exec.c:217-436 | Round trip: the started program finds exactly the intended arguments and environment through its tables, in order, unless a script was given an empty argv, and then it does not. 0 if and only if the pages the strings fill are more than are free |
| Buckets.SlotsApart | linux-0.11/lib/malloc.c:159-164 | Two objects of one page do not overlap |
| Buckets.SlotFits | linux-0.11/lib/malloc.c:159-164 | An object lies within its page |
| Buckets.TakeOne | linux-0.11/lib/malloc.c:168-170 | Taking the first free object keeps the account of a page: each slot is free once or live |
| Buckets.PutOne | linux-0.11/lib/malloc.c:205-207 | Giving an object back keeps that account, with refcnt one less |
| Buckets.CutIsSlots | linux-0.11/lib/malloc.c:159-164 | A fresh page is cut into exactly all its slots |
| Buckets.FreshStep | linux-0.11/lib/malloc.c:152-166 | A fresh page on a spare descriptor keeps the account of all pages |
| Buckets.DropStep | linux-0.11/lib/malloc.c:208-228 | A page without live objects can go back: the account of the other pages stays |
| Buckets.UserStep | linux-0.11/lib/malloc.c:117-173 | Whatever a user writes into a live object, no free list is disturbed |
| Buckets.LiveObjectsApart | linux-0.11/lib/malloc.c:117-173 | In every consistent state no two live objects overlap |
| Buckets.OneDescPerPage | linux-0.11/lib/malloc.c:189-203 | A page has one descriptor on one chain, so the search of free_s ends at the same place with a size hint and with 0 |
| Malloc.Allocator.FindBucket | linux-0.11/lib/malloc.c:127-134 | The smallest bucket that fits, none exactly above a page |
| Malloc.Allocator.InitBucketDesc | linux-0.11/lib/malloc.c:97-115 | Spare descriptors appear and nothing in use changes |
| Malloc.Allocator.NewBucket | linux-0.11/lib/malloc.c:152-166 | The page is cut up and heads the chain of its bucket; objects elsewhere keep place and contents |
| Malloc.Allocator.Malloc | linux-0.11/lib/malloc.c:117-173 | A new live object of the smallest fitting size, less than twice the length asked for or 16; all live objects keep their place and contents. A panic if and only if the length is above a page, or no page of the bucket has a free object and there is no page or no descriptor to be had |
| Malloc.Allocator.FindDesc | linux-0.11/lib/malloc.c:189-203 | The descriptor of the object's page and the one before it, for a hint of 0 or any not above the object's size |
| Malloc.Allocator.FreeFound | linux-0.11/lib/malloc.c:204-230 | The same release whatever stale predecessor the search remembered: the descriptor leaves its chain, the order of the others kept, and becomes the first spare one |
| Malloc.Allocator.FreeS | linux-0.11/lib/malloc.c:182-231 | The object is no longer live; its page goes back exactly when no live object is left on it; all others keep place and contents |
| Counters.RechargeKeepsBounds | linux-0.11/kernel/sched.c:161-165 | Recharging keeps every counter between 0 and twice the priority less one, and leaves runnable tasks a positive one |
| Counters.PicksUnique | linux-0.11/kernel/sched.c:137-151 | The scan determines its choice: largest counter, then highest slot |
| Counters.SlicesBounded | linux-0.11/kernel/sched.c:161-165 | The ticks other tasks can use before a recharge are at most the sum of twice the priority less one |
| Counters.ScheduleKeepsWait | linux-0.11/kernel/sched.c:113-169 | schedule() makes no runnable task wait longer, though it may recharge everybody else |
| Counters.TickLowersWait | linux-0.11/kernel/sched.c:372-381 | Each tick of another task lowers the wait by one |
| Counters.NiceLeavesBound | linux-0.11/kernel/sched.c:424-429 | A process with priority 15 and counter 29 calls nice(14): its counter is above the bound of priority 1, and stays so after any number of recharges |
| Counters.NiceKeepsBounds | linux-0.11/kernel/sched.c:424-429 | After nice all counters are within bounds if and only if the counter of the caller is at most twice its new priority less one |
| Counters.RechargeNeverRestores | linux-0.11/kernel/sched.c:161-165 | No number of recharges brings a counter above the bound back: it tends to twice the priority, which it reaches once 2 to the number of recharges exceeds what was above |
| Sched.Scheduler.FindNext | linux-0.11/kernel/sched.c:137-151 | The choice and its counter |
| Sched.Scheduler.Schedule | linux-0.11/kernel/sched.c:113-169 | At most two passes; the state is recharged once if all runnable slices are used up, and the choice runs |
| Sched.Scheduler.DoTimer | linux-0.11/kernel/sched.c:372-381 | The running counter falls by one but not below zero; a used-up slice reschedules only from user mode |
| Sched.Scheduler.Nice | linux-0.11/kernel/sched.c:424-429 | Only the caller's priority changes and it stays positive; the state stays sound if and only if the slice that is left is within the bound of the new priority |
| Sched.Scheduler.Do | linux-0.11/kernel/sched.c:372-381 | Each event has its effect, and lowers the bound on the wait of a process that stays runnable by one if it is a tick |
| Sched.Scheduler.Run | linux-0.11/kernel/sched.c:113-169 | Over every run of ticks, sleeps and wake-ups, state by state, a process that stays runnable runs within twice the sum of (2 * priority - 1) ticks, after what is left of the idle process's slice if that has the processor |
| Pipe.AroundDrop | linux-0.11/fs/pipe.c:29-36 | Advancing the tail drops exactly the first bytes of the ring, also across its end |
| Pipe.AroundStore | linux-0.11/fs/pipe.c:59-66 | Storing at the head appends and disturbs no byte already in the ring |
| Pipe.PipeInode.Outstanding | linux-0.11/include/linux/fs.h:58-62 | At most 4095 bytes are outstanding, and they are the difference of what was accepted and delivered |
| Pipe.PipeInode.Read | linux-0.11/fs/pipe.c:13-39 | A reader takes the first bytes of the stream and sleeps or ends early only when the ring is empty |
| Pipe.PipeInode.Write | linux-0.11/fs/pipe.c:41-69 | A writer appends a prefix of its data and stops early only when the ring is full |
| Pipe.Run | linux-0.11/fs/pipe.c:13-69 | Over every interleaving, what was read followed by the ring is what was in the ring followed by what was written; each read takes all it wants or empties the ring, each write puts in all it has or fills it, and each ends as that demands |
| LineEditor.TypeKeepsCommitted | linux-0.11/kernel/chr_drv/tty_io.c:168-206 | Nothing typed later can change a finished line |
| LineEditor.TypeCountsBreaks | linux-0.11/kernel/chr_drv/tty_io.c:217-232 | The number of finished lines rises by one exactly when a newline or end of file joins the line |
| LineEditor.EraseUndoes | linux-0.11/kernel/chr_drv/tty_io.c:184-197 | Erase takes back a plain character, and with ECHO sends DEL, twice for a control character |
| LineEditor.KillUndoes | linux-0.11/kernel/chr_drv/tty_io.c:169-183 | Kill takes back everything typed since the last newline or end of file |
| LineEditor.CharacterTyped | linux-0.11/kernel/chr_drv/tty_io.c:217-232 | A character that neither edits nor signals joins the line, and is echoed as itself, as ^ and a letter if it is a control character and ECHOCTL is set, newline as LF and CR, or not at all |
| LineEditor.SignalsSent | linux-0.11/kernel/chr_drv/tty_io.c:207-216 | With ISIG the interrupt character sends SIGINT and the quit character SIGQUIT, and neither joins the line |
| LineEditor.OutputHeld | linux-0.11/kernel/chr_drv/tty_io.c:198-205 | Stop and start characters hold and release output and do nothing else |
| LineEditor.ReturnIgnored | linux-0.11/kernel/chr_drv/tty_io.c:158-167 | With NOCR and without CRNL a carriage return does nothing |
| LineEditor.LineTyped | linux-0.11/kernel/chr_drv/tty_io.c:158-232 | Text and a carriage return typed with CRNL and ECHO: the line is the text and a newline, and the echo is the text, LF and CR |
| LineEditor.OneLineGiven | linux-0.11/kernel/chr_drv/tty_io.c:268-283 | A canonical read is given at most one line if and only if it asks for no more than the first line, or nothing follows that but an end of file |
| LineEditor.TwoLinesAtOnce | linux-0.11/kernel/chr_drv/tty_io.c:268-283 | Two lines typed ahead and a read of four characters: it is given both lines |
| TtyQueue.Queue.Room | linux-0.11/include/linux/tty.h:26-30 | EMPTY and LEFT say what the queue contains |
| TtyQueue.Queue.Putch | linux-0.11/include/linux/tty.h:33 | PUTCH appends |
| TtyQueue.Queue.Getch | linux-0.11/include/linux/tty.h:31 | GETCH takes the first character |
| Tty.Terminal.Receive | linux-0.11/include/linux/tty.h:33 | A character from the line joins the raw ring, or is lost when that is full, and the cooked line does not change |
| Tty.Terminal.Kill | linux-0.11/kernel/chr_drv/tty_io.c:169-183 | The ring goes back to the finished lines, and what is rubbed out is echoed |
| Tty.Terminal.Edit | linux-0.11/kernel/chr_drv/tty_io.c:168-206 | Kill, erase, stop and start, and only those, edit the line as the editor on sequences does |
| Tty.Terminal.Cook | linux-0.11/kernel/chr_drv/tty_io.c:158-232 | One raw character does to the ring, the signals, the echo and the stop flag what it does to a line editor on sequences |
| Tty.Terminal.CopyToCooked | linux-0.11/kernel/chr_drv/tty_io.c:152-235 | The loop on the rings is the line editor on sequences, up to the end of the input or a full ring |
| Tty.Terminal.Read | linux-0.11/kernel/chr_drv/tty_io.c:237-296 | A reader gets the first characters up to its count or an end of file, sleeps exactly when there is nothing for it, and is done exactly when it has its count, a line, its minimum or an end of file; secondary.data stays the number of newlines and ends of file in the ring |
| Screen.PutKeepsOk | linux-0.11/kernel/chr_drv/console.c:440-620 | After any character the cursor and the scrolling region are within the screen |
| Screen.ShowOk | linux-0.11/kernel/chr_drv/console.c:452-462 | A printable character lands in the cell of the cursor, on the next row if the cursor stood past the end of its row |
| ControlSequences.NumberRead | linux-0.11/kernel/chr_drv/console.c:515-523 | Writing a number in decimal leaves that number as parameter |
| ControlSequences.ParametersRead | linux-0.11/kernel/chr_drv/console.c:515-523 | Any number of parameters up to 16, each of decimal digits or left out as 0, ends up in par in order, reduced to 32 bits |
| ControlSequences.SequenceRead | linux-0.11/kernel/chr_drv/console.c:508-527 | ESC [ parameters final does what its final character does with those parameters, and shows nothing on the way |
| ControlSequences.TextShown | linux-0.11/kernel/chr_drv/console.c:449-462 | Text that fits in the row stands there afterwards in the current attribute, and no other cell changes |
| ControlFunctions.EraseInDisplay | linux-0.11/kernel/chr_drv/console.c:234-259 | ESC [ n J blanks the cells from the cursor on for 0, those before it for 1, all for 2, leaves every other cell and does not move the cursor (ED, section 8.3.39 of ECMA-48) |
| ControlFunctions.EraseInLine | linux-0.11/kernel/chr_drv/console.c:261-288 | ESC [ n K does the same within the row (EL, section 8.3.41) |
| ControlFunctions.CursorByRows | linux-0.11/kernel/chr_drv/console.c:534-565 | ESC [ n A, B, e, E and F move the cursor up or down n rows, at least one, the last two to the first column, and not at all if there is no such row |
| ControlFunctions.CursorByColumns | linux-0.11/kernel/chr_drv/console.c:545-555 | ESC [ n C, a and D move it right or left n columns, at least one, not at all if there is no such column |
| ControlFunctions.CursorTo | linux-0.11/kernel/chr_drv/console.c:528-578 | ESC [ n G, n d and n;m H put it in that column, row, or row and column, counted from one with 0 as 1, if there is such a place, and show nothing |
| ControlFunctions.InsertCharacters | linux-0.11/kernel/chr_drv/console.c:386-394 | ESC [ n @ moves the rest of the row right by n cells, at least one, blanks the gap and changes no other row |
| ControlFunctions.DeleteCharacters | linux-0.11/kernel/chr_drv/console.c:406-414 | ESC [ n P moves the rest of the row left by n cells, at least one, blanks its end and changes no other row |
| ControlFunctions.InsertLines | linux-0.11/kernel/chr_drv/console.c:396-404 | ESC [ n L moves the rows from the cursor down by n, at least one, and blanks the gap; the rows above stay |
| ControlFunctions.DeleteLines | linux-0.11/kernel/chr_drv/console.c:416-424 | ESC [ n M moves the rows below up over n rows, at least one, and blanks the end of the screen; the rows above stay |
| ControlFunctions.LineFeeds | linux-0.11/kernel/chr_drv/console.c:199-207 | LF, VT, FF and ESC D go down a row, or on the last row of the region scroll the region up, cell by cell |
| ControlFunctions.ReverseLineFeed | linux-0.11/kernel/chr_drv/console.c:209-217 | ESC M goes up a row, or on the first row of the region scrolls the region down, cell by cell |
| ControlFunctions.SingleMoves | linux-0.11/kernel/chr_drv/console.c:467-475 | CR goes to the first column, BS back a column, ESC E to the start of the next row if there is one |
| ControlFunctions.CharacterErased | linux-0.11/kernel/chr_drv/console.c:225-232 | The erase character goes back a column and blanks that cell alone |
| ControlFunctions.Tabs | linux-0.11/kernel/chr_drv/console.c:476-485 | A tab goes to the next column that is a multiple of 8, past the end of the row as after a line feed |
| ControlFunctions.CharacterShown | linux-0.11/kernel/chr_drv/console.c:449-462 | A printable character fills the cell of the cursor alone in the current attribute; past the end of the row it is shown as after CR and LF |
| ControlFunctions.SelectRendition | linux-0.11/kernel/chr_drv/console.c:290-302 | ESC [ ... m: the last parameter the console knows sets the attribute, 0 and 27 plain, 1 and 4 bright, 7 reverse; with none of them it stays |
| ControlFunctions.SetRegion | linux-0.11/kernel/chr_drv/console.c:600-609 | ESC [ n;m r makes rows n to m the scrolling region if they are rows of the screen in order |
| ControlFunctions.SaveAndRestore | linux-0.11/kernel/chr_drv/console.c:429-438 | ESC [ s and ESC 7 remember the place of the cursor, ESC [ u and ESC 8 put it back there |
| ControlFunctions.ControlsIgnored | linux-0.11/kernel/chr_drv/console.c:449-507 | Every other control character, and ESC with any other character, changes nothing |
| ControlFunctions.OthersIgnored | linux-0.11/kernel/chr_drv/console.c:525-617 | A sequence with any other final character changes nothing |
| Console.Panned | linux-0.11/kernel/chr_drv/console.c:112-137 | Moving the window on by a row and blanking it shows the scrolled screen |
| Console.BackAtStart | linux-0.11/kernel/chr_drv/console.c:117-125 | Copying the rows back to the start of video memory shows the scrolled screen too |
| Console.CopiedUp | linux-0.11/kernel/chr_drv/console.c:139-162 | Copying rows up shows the scrolled region, with overlap |
| Console.CopiedDown | linux-0.11/kernel/chr_drv/console.c:166-197 | Copying rows down shows the scrolled region, with overlap |
| Console.Display.constructor | linux-0.11/kernel/chr_drv/console.c:637-723 | The state after console_init shows the first rows of video memory |
| Console.Display.Pan | linux-0.11/kernel/chr_drv/console.c:112-137 | The fast scroll, jumping back or not, shows what copying all rows would |
| Console.Display.ScrUp | linux-0.11/kernel/chr_drv/console.c:108-164 | By either way, the screen shown is the one the plain row-copying scroll gives, and stores stay in video memory |
| Console.Display.ScrDown | linux-0.11/kernel/chr_drv/console.c:166-197 | The region moves down by a row |
| Console.Display.LineFeed | linux-0.11/kernel/chr_drv/console.c:199-207 | Down a row, or the region scrolls when the cursor is on its last row |
| Console.Display.ReverseIndex | linux-0.11/kernel/chr_drv/console.c:209-217 | Up a row, or the region scrolls down when the cursor is on its first row |
| Console.Display.CsiJ | linux-0.11/kernel/chr_drv/console.c:234-259 | Erases on video memory the cells the plain terminal erases, for every parameter (`ControlFunctions.EraseInDisplay` says which) |
| Console.Display.CsiK | linux-0.11/kernel/chr_drv/console.c:261-288 | Erases on video memory the cells the plain terminal erases (`ControlFunctions.EraseInLine` says which) |
| Console.Display.InsertOneChar | linux-0.11/kernel/chr_drv/console.c:331-343 | The rest of the row moves right by a cell |
| Console.Display.DeleteOneChar | linux-0.11/kernel/chr_drv/console.c:358-371 | The rest of the row moves left by a cell |
| Console.Display.InSequence | linux-0.11/kernel/chr_drv/console.c:515-616 | Parameters and final characters do what they do on the plain terminal |
| Console.Display.Write | linux-0.11/kernel/chr_drv/console.c:440-620 | Over every byte stream the display on video memory shows what the plain terminal shows, and no store leaves video memory; what that is for each character and control function is said by `ControlFunctions` |
| Directories.MatchIsName | linux-0.11/fs/namei.c:63-80 | match accepts exactly the entries in use under the name, cut to its length limit |
| Directories.LookupMeans | linux-0.11/fs/namei.c:93-174 | With distinct names, looking up a name gives the inode of its entry, and 0 exactly when no entry in use has it |
| Directories.EntryAdded | linux-0.11/fs/namei.c:186-241 | A new entry is what its name finds; every other name finds what it found |
| Directories.EntryCleared | linux-0.11/fs/namei.c:738-775 | A cleared entry is found no more; every other name finds what it found |
| Links.LinkStep | linux-0.11/fs/namei.c:786-834 | One name more keeps counts equal to names if and only if the count still fits in its byte |
| Links.UnlinkStep | linux-0.11/fs/namei.c:738-775 | One name less keeps counts equal to names, and a file without names and users is free |
| Links.MkdirStep | linux-0.11/fs/namei.c:520-595 | A new directory keeps all counts right if and only if the parent's count still fits in its byte |
| Links.RmdirStep | linux-0.11/fs/namei.c:644-718 | Removing an empty directory keeps all counts right; its own count was 2 |
| Links.OnlyName | linux-0.11/fs/namei.c:644-718 | An empty directory is named by one entry outside itself, so removing that entry leaves nothing dangling |
| Namei.LinkOverflows | linux-0.11/fs/namei.c:786-834 | A file with 255 links: the next link makes its count wrong |
| Namei.MkdirOverflows | linux-0.11/fs/namei.c:587-590 | A directory with a link count of 255: the next subdirectory makes the counts wrong, whether the directory stays or, nobody using it, is freed |
| Overflows.LinkTooOften | linux-0.11/fs/namei.c:786-834 | From a fresh device, mknod and 255 times link reach that state and leave a freed file with 256 names |
| Overflows.MkdirTooOften | linux-0.11/fs/namei.c:520-595 | From a fresh device, mkdir and 254 times mkdir in the new directory free it with all its names |
| Namei.Volume.FindEntry | linux-0.11/fs/namei.c:93-174 | The entry of the name, -1 exactly when no entry has it |
| Namei.Volume.TargetBytes | linux-0.11/fs/namei.c:106-126 | The name searched for is the one given, cut to 14 bytes and padded with null bytes, except that ".." in the root of the process is "." |
| Namei.Volume.AddEntry | linux-0.11/fs/namei.c:186-241 | The first free entry, or one behind the last; refused exactly when there is no room |
| Namei.Volume.NewInode | linux-0.11/fs/bitmap.c:171-210 | The lowest free inode with one link; 0 exactly when none is free |
| Namei.Volume.Create | linux-0.11/fs/namei.c:469-518 | One new name for the lowest free inode as a new file, or no change at all and the error that applies first: the name exists, no permission, no space |
| Namei.Volume.Link | linux-0.11/fs/namei.c:778-835 | One more name for the file; counts are right afterwards if and only if it failed or had fewer than 255 links; with 255 the count is zero, and a file nobody uses is freed |
| Namei.Volume.Unlink | linux-0.11/fs/namei.c:720-776 | One name less; the file is freed exactly when it was its last and nobody uses it |
| Namei.Volume.Mkdir | linux-0.11/fs/namei.c:520-595 | A directory with "." and ".." under the name; counts are right afterwards if and only if it failed or the parent had fewer than 255 links; with 255 a parent nobody uses is freed; the path where add_entry fails is a panic |
| Namei.Volume.EmptyDir | linux-0.11/fs/namei.c:600-642 | True exactly for a directory with nothing but "." and ".." |
| Namei.Volume.Rmdir | linux-0.11/fs/namei.c:644-718 | The named empty directory is gone and the parent counts a link less, or no change and the error that applies first |
| Namei.Volume.Do | linux-0.11/fs/namei.c:469-835 | Each of these calls has the outcome and the effect stated for it and no other |
| Namei.Volume.Run | linux-0.11/fs/namei.c:469-835 | Over every run of create, mknod, link, unlink, mkdir, rmdir and open, call by call with its outcome, up to a call that wraps a count or panics, each live inode's link count is the number of entries that name it |

## Left out

- Memory.Machine.FreePage: the panics on a free frame and on one past the end of memory are excluded by preconditions, which every caller in the model meets.
- Memory.Machine.Store: the accessed bit that the processor sets is not modelled, because no code reads it.
- Tasks.TaskTable.DoNoPage: the contents read from the file system are the parameter `image`, and the number of users of the executable is the parameter `users`.
- Tasks.TaskTable.Step: executables do not change during a run, so the contents and sizes of each are a parameter, `programs`.
- Tasks.TaskTable.CopyProcess: registers, signals, times and open files of the new process are not modelled, and the free slot is a parameter.
- Tasks.TaskTable.Run: says nothing of slot 0, whose pages lie in low memory and are not counted.
- AddressSpaces.CopiedMeansChildSees: what a mapping of frame 0, the page directory itself, shows is exempt, because linking in a table changes it.
- Tasks.TaskTable.Exec: of the stores `create_tables` and the zero fill make, only the first is part of the call; the others are faults and writes that follow it.
- Requests.BlockLayer.MakeRequest: a call that sleeps returns an outcome and is continued by `Resume`; that a sleeper is woken is not claimed.
- Requests.BlockLayer.EndRequest: the hard disk driver advances the sector of the request in service between its interrupts (`hd.c:324`, `hd.c:344`); here a request keeps the sector it was queued with.
- Elevator.NoStarvation: counts completions, so it assumes nothing about how fast a driver is, and says nothing if it stops.
- FileSystem.Device.FreeBlock: the block's old contents become arbitrary, as nobody may look at them; that the early return keeps the reference it has just taken is not modelled.
- FileSystem.Device.Bmap: runs without interruption; `BlockRace` treats the sleep in `new_block` on its own, and the sleeps in `bread` of pointer blocks are left out.
- FileSystem.Device.Truncate: runs without interruption; which buffers somebody else holds is the parameter `held`.
- FileSystem.Device.FileRead: blocks are read and written through a transparent cache and without I/O errors; the cache itself is the subject of `BufferCache`.
- FileSystem.Device.FileWrite: runs without interruption; positions stay below the largest file the block tree can hold; the check on that in `_bmap` is a panic.
- BufferCache.Cache.InsertIntoQueues: models the guarded store through `b_next`.
- BufferCache.Cache.Sync: the write-back of inodes between the two passes is the steps of other calls.
- BufferCache.Cache.Complete: a write that fails is not modelled; it leaves the buffer clean but not up to date, so the store in it is lost.
- BufferCache.Cache.Run: a process that holds several buffers is several calls; device 0 stands for no device; there are at least two buffers.
- ExecArgs.ArgPages.CopyStrings: segment switching for strings in kernel memory is not modelled.
- Execve.PassArguments: runs without interruption; the header checks, permissions and set-user-id bits of `do_execve` are left out.
- Malloc.Allocator.Malloc: pages come from parameters, and a nested `malloc` while a page is being obtained is left out.
- Malloc.Allocator.FreeS: an address that is no live object is excluded, as is a size hint above the object's size; the code panics or does not find it.
- Sched.Scheduler.Run: the set of processes and their priorities stay fixed in a run; signals, alarms and timers appear as wake-ups.
- Tty.Terminal.Read: timeouts and pending signals are left out; sleeping is an outcome.
- Tty.Terminal.Cook: `tolower` of negative characters is left out, and echo is the list of characters handed to `tty->write`.
- Console.Display.constructor: the display type is a parameter, rows have an even number of at least 8 columns, and the text written at boot is left out.
- Console.Display.Write: the reply to ESC Z, the bell, and the cursor and origin registers are left out; offsets count cells of two bytes.
- Namei.Volume.Create: each call is atomic, although `new_inode` may sleep between the search for the name and `add_entry`.
- Namei.Volume.FindEntry: path walks, permissions, the sticky bit and mount crossing are parameters or left out; a directory is the sequence of its entries, without holes.
- Namei.Volume.Run: `mknod` with the mode of a directory is left out.
- Disk, floppy and RAM disk drivers: a driver is a step that completes the request in service.
- Boot code, traps, segment set-up, keyboard and serial interrupts.
- The wait chain of `sleep_on` and `wake_up`: blocking is "other steps may run, then the guard is checked again", so safety is claimed and liveness of wake-ups is not.
- `add_timer`, `tty_write`, `breada`, `bread_page`, raw block device writes, floppy change and `invalidate_buffers`.
- User and group ids, signals, `ioctl`, `stat`, mounting, `vsprintf`, `mktime` and the string functions: they would add easy members only.
