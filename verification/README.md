# Chutos kernel: verified models

Chutos is a small freestanding x86-64 kernel. Its subsystems keep their state in
static variables and update it with short loops. This project models the parts whose
correctness is a matter of whole runs or of several functions together, and proves it.

How the project is built:

- What a subsystem does in one call is a function on values (a "machine", a scheduler
  state, a volume). The statics and buffers themselves are classes with fields and
  arrays; each method is proved to do exactly the step its function describes, or to
  compute the flat specification directly.
- What the subsystem guarantees is proved about those functions: invariants of every
  reachable state, the meaning of the page tables as the processor walks them, service
  bounds over every run, agreement with a flat reference.

| files | subsystem |
|---|---|
| `Bits`, `Frames` | machine words, C's bitwise operators, little-endian bytes, 4 KiB frames |
| `PageAllocator` | physical page allocator |
| `PageTables`, `PagingInvariant`, `PagingRuns`, `PagingTheorems`, `Paging` | page tables: steps and processor walk, what the tables mean, runs, guarantees, the mutable object |
| `UserProcess`, `BootOrder` | the user image, a client of allocator and paging; user pages in the order of boot |
| `Scheduler`, `SchedulerRuns` | weighted-lane scheduler and its guarantees to lanes over runs |
| `SchedulerTasks`, `SchedulerRoom`, `KernelTasks` | when every task of a lane runs, when one waits forever, and the kernel's own tasks |
| `FatVolume`, `FatChains`, `FatLayout`, `FatReader`, `ShortNames` | FAT32 volume as flat file and flat directory, cluster chains as the FAT links them, boot sector and clusters on the disk, the nested-loop reader, 8.3 names |
| `ConsoleText`, `Console` | text layout and numbers, the scrolling screen |
| `Madt` | ACPI interrupt controller table |
| `Keyboard` | interrupt-fed ring |
| `Wrappers` | optional values |

Modelling choices:

- Physical memory is the first gigabyte, as an array of frames of 512 words; a pointer
  to a table is its frame number, and frame 0 is the null pointer. Bytes are the
  little-endian bytes of the words, so the byte-wise clearing and copying loops and the
  word-wise table stores act on the same memory. The kernel is linked from 1 MiB
  upwards (`x86_64/linker.ld:5`), so no allocated frame is frame 0.
- The memory map is a sequence of (address, length, kind) entries. Distinctness of
  frames fails exactly when some page is recorded for two entries; maps whose usable
  entries do not overlap never do that.
- A mapped address may have any 64-bit value. The walk keeps bits 51:12 of it, so it is
  the given frame exactly when the address is below 2^52.
- A task's body is not part of a scheduling step; whatever it does to the scheduler
  appears as further operations of the run.
- The disk is a fixed partial map from sector number to sector; an unreadable sector is
  one the map lacks. All sector arithmetic wraps at 32 bits as in the code, and the
  reader's treatment of an unreadable FAT sector and of clusters above 0x03ffffff (the
  bad-cluster mark, which its own guards accept as a cluster) is kept, so the theorems
  about files and directories need no assumption about the volume. Chains are linked by
  the words of the FAT itself.
- Methods that take a pointer which the code checks for null take a value or a non-null
  object here.
- Loops that stand inside one C function are sometimes a method of their own; its
  comment says which part it is.

Results worth knowing:

- The boot order (`src/kernel/main.c:71-81`) switches to the user address space and
  prepares the user image there before anything can call `paging_alloc_user_page`, which
  maps into the kernel tree. Whatever else allocates or maps in between, the address such
  a call returns never leads to the new page: the first one is the code page of the user
  program, the last one its stack, and all between fault
  (`BootOrder.BootOrderHidesUserPages`; the exact condition in any state is
  `PagingTheorems.UserPageUnderActiveRoot`). If nothing else allocates, call j, from 0,
  returns an address exactly when j < 512 and 12 + j frames were free at boot
  (`BootOrder.UserPagesInARow`), and calls past the window go on using up frames
  (`BootOrder.UserPagesShape`).
- A memory map that records nothing leaves the pages from the end of the kernel to 128 MiB,
  handed out in order (`PageAllocator.InitialFramesExact`, `PageAllocator.FallbackOrder`).
- A memory map that lists usable memory twice has it handed out twice
  (`PageAllocator.OverlapHandsOutTwice`); no page is handed out twice if and only if none
  is recorded for two entries (`PageAllocator.AllocationRepeats`).
- The reader does not look up the FAT entry of a cluster above 0x03ffffff and takes it for
  the bad mark, which it then reads as a cluster. It follows a chain if and only if every
  cluster but the last is at most that (`FatChains.FollowedIffLow`). A good chain
  0x04000000 -> 3 is misread: its second half comes from the bad mark's address, or the
  read fails (`FatChains.WideChainMisread`).
- Not every task of an active lane runs. Beside other lanes, of which the heaviest has
  weight h, a lane of weight w serves all its tasks in every arrangement if and only if
  it has at most max(1, w - h + 1) of them (`SchedulerRoom.ServedIffRoomy`); a lane on
  its own serves any number (`SchedulerTasks.EveryTaskRuns`).
- The kernel's own list (`src/kernel/main.c:94-118`) has two AI tasks where there is room
  for one. In balanced mode its order saves it and all five run
  (`KernelTasks.BalancedKernelServes`). Performance mode (`src/kernel/ai.c:314`) stops the
  desktop task until the mode is reset (`KernelTasks.PerformanceModeStopsDesktop`).
- A file whose attributes carry the label bit beside others is listed and read by index
  but not by name (`FatVolume.LabelBitHidesName`). Reading by name is reading by the index
  of the first plain file of that name (`FatVolume.NameReadsFirstPlain`).
- The MADT parser reads past the end of tables of 36 to 39 bytes, which the finder
  accepts (`Madt.FinderAcceptsShortTables`), and of no longer ones
  (`Madt.InterruptTopology.ParseMadt`).
- Rendering an 8.3 name loses information exactly when its name part holds a dot
  (`ShortNames.ShortNameRoundTrip`, `ShortNames.DotsCollide`).

## Model

| member | source | states |
|---|---|---|
| PageAllocator.AlignBounds | src/kernel/memory.c:30-33 | Rounding up gives the least page boundary not below the address, and wraps to 0 exactly in the last page of the address space; rounding down gives the greatest not above. |
| PageAllocator.AddedRegionFrames | src/kernel/memory.c:35-57 | One call adds exactly the whole pages of the range below 1 GiB when the table has room, and keeps every region aligned, non-empty and above the kernel. |
| PageAllocator.RecordedFramesExact | src/kernel/memory.c:81-101 | After any memory map, the frames of the region table are exactly the whole pages above the kernel, below 1 GiB and inside a usable entry whose turn came while the table still had room. |
| PageAllocator.DistinctIffDisjoint | src/kernel/memory.c:111-140 | No frame is ever handed out twice if and only if no two regions overlap. |
| PageAllocator.DistinctIffRecordedOnce | src/kernel/memory.c:81-101 | The frames of the recorded table are distinct if and only if no page of the memory map is covered by two usable entries that both found room in the table. |
| PageAllocator.AllocationRepeats | src/kernel/memory.c:81-109 | The same for the table initialisation leaves, fallback range included. |
| PageAllocator.OverlapHandsOutTwice | src/kernel/memory.c:81-101 | With two pages from 2 MiB on listed twice, some frame is handed out twice. |
| PageAllocator.AllocationOrder | src/kernel/memory.c:59-109 | For usable entries that do not overlap, in any order, the frames handed out are pairwise distinct, real, above the kernel and usable, or in the fallback range when nothing is usable. |
| PageAllocator.InitialFramesExact | src/kernel/memory.c:81-108 | The frames that can be handed out are exactly the recorded pages, or, when nothing is recorded, exactly the whole pages from the end of the kernel to 128 MiB. |
| PageAllocator.FallbackOrder | src/kernel/memory.c:105-108 | When nothing is recorded the frames are consecutive from the end of the kernel on, and as many as fit below 128 MiB. |
| PageAllocator.NothingUsable | src/kernel/memory.c:89-99 | A memory map without usable entries records nothing. |
| PageAllocator.TotalCountsFrames | src/kernel/memory.c:56 | The accumulated page total is the number of frames that can be handed out: slack is not counted. |
| PageAllocator.CursorMoves | src/kernel/memory.c:113-128 | Moving the cursor into a region, or from an exhausted region to the next, skips no counted page. |
| PageAllocator.Allocator.constructor | src/kernel/memory.c:59-109 | Initialisation leaves every recorded page free; if nothing is recorded, allocation n will return the end of the kernel plus n pages, up to 128 MiB. |
| PageAllocator.Allocator.AddRegion | src/kernel/memory.c:35-57 | The in-place table and total after one call. |
| PageAllocator.Allocator.AllocPage | src/kernel/memory.c:111-140 | The n-th success returns exactly the n-th frame of the table, zeroed, with no other frame changed; it returns 0 exactly when all counted pages are used. |
| PageAllocator.Allocator.ZeroPage | src/kernel/memory.c:132-136 | Clearing 4096 bytes one by one yields the zero frame. |
| PageAllocator.Allocator.PagesFree | src/kernel/memory.c:152-155 | The free count is the number of frames still to be handed out. |
| Frames.SetFrameByte | src/kernel/user_process.c:44-47 | A byte store changes that byte of the frame and no other. |
| Bits.BytesMakeWord | src/kernel/user_process.c:44-47 | The bytes of a stored word, least significant first, make up the word. |
| PagingInvariant.WalkIsExpected | src/kernel/paging.c:60-79 | When the tables of a tree hold their links and view, the 4-level walk of every 64-bit address is the identity below 1 GiB, the view's frame in the user window, and a fault elsewhere. |
| PagingRuns.InitHolds | src/kernel/paging.c:42-86 | Initialisation succeeds exactly when three frames can be allocated, and then establishes the invariant with nothing mapped. |
| PagingRuns.MapKeeps | src/kernel/paging.c:103-140 | A map succeeds exactly when its arguments are aligned and in the window and enough frames are free for the missing tables; success moves one page of one view; a failure, even one that has linked a directory, moves none. |
| PagingRuns.MapTouchesOnlyTables | src/kernel/paging.c:167-206 | Mapping writes only to page tables and to frames that were free, and moves no root. |
| PagingRuns.RelinkKeeps | src/kernel/paging.c:112-134 | Linking a fresh frame into one tree keeps the other tree, the shared directory and the no-alias invariant. |
| PagingRuns.CreateKeeps | src/kernel/paging.c:142-165 | Creation succeeds exactly when the space exists or two frames are free, and keeps every view and the invariant. |
| PagingRuns.StepKeeps | src/kernel/paging.c:103-234 | Every operation keeps the invariant, with the views moved exactly when it succeeds. |
| PagingTheorems.TranslationsAfterRun | src/kernel/paging.c:42-206 | After a successful initialisation and any sequence of operations, the walk of every address in both trees is the one the views say, the identity directory is intact, and the table count is the number of distinct reachable table frames. |
| PagingTheorems.StepTranslations | src/kernel/paging.c:103-206 | A successful mapping changes the translation of one 4 KiB page of one tree; failed mappings and all other operations change none, and the identity directory is never altered. |
| PagingTheorems.TablePagesAreReachable | src/kernel/paging.c:58-86 | `table_pages` equals the number of distinct table frames reachable from the two roots. |
| PagingTheorems.BootFramesAllocatable | src/kernel/main.c:69-72 | A memory map gives paging frames that are real and pairwise distinct if and only if it records no page for two entries; in particular if its usable entries do not overlap. |
| PagingTheorems.UserPageUnderActiveRoot | src/kernel/paging.c:218-234 | The address returned translates to the new zeroed frame under the active root if and only if that root is the kernel's, or the address space already maps that page to that frame. |
| BootOrder.BootOrderHidesUserPages | src/kernel/main.c:71-81 | After initialisation, create, switch and the user image, and then any operations that map nothing into the address space, a user page is handed out exactly when the cursor is in the window and the frames for the page and the missing tables are free; its address translates to the code frame at the user base, to the stack frame in the last page, and faults in every other page. |
| BootOrder.UserPageAfterRun | src/kernel/paging.c:208-234 | The same from any state with the address space active: the address returned leads where the address space already did. |
| BootOrder.UserPagesInARow | src/kernel/main.c:71-81 | If nothing else allocates after boot, call j returns an address exactly when j < 512 and 12 + j frames were free at boot. |
| BootOrder.UserPagesShape | src/kernel/paging.c:218-234 | The first user page takes three frames and each later call one, also a call that fails because the window is full, until none is left; the cursor stands after exactly the pages handed out, and no call changes what the address space maps. |
| Paging.PagingUnit.constructor | src/kernel/paging.c:42-86 | The tables and statics after initialisation are those of the initial step. |
| Paging.PagingUnit.MapUserPage | src/kernel/paging.c:103-140 | The in-place call is exactly the mapping step on the kernel tree. |
| Paging.PagingUnit.CreateAddressSpace | src/kernel/paging.c:142-165 | The in-place call is exactly the creation step. |
| Paging.PagingUnit.MapAddressSpacePage | src/kernel/paging.c:167-206 | The in-place call is exactly the mapping step on the address space; any other pointer is refused and changes nothing. |
| Paging.PagingUnit.SwitchAddressSpace | src/kernel/paging.c:208-216 | The active root becomes the address space's, or nothing changes and the call says so. |
| Paging.PagingUnit.AllocUserPage | src/kernel/paging.c:218-234 | The in-place call is exactly the user-page step. |
| UserProcess.ImagePrepared | src/kernel/user_process.c:26-63 | Preparation succeeds exactly when the program has 1 to 4096 bytes and enough frames are free; then the process reads its program padded with zeros at the user base and zeros in the top page, from two different frames that are neither tables nor free. A failure, whatever it allocated or linked, moves no translation. |
| UserProcess.MapImage | src/kernel/user_process.c:49-55 | The stack mapping cannot fail once the code mapping succeeded, and neither mapping writes to the two pages. |
| UserProcess.LaterMapsSucceed | src/kernel/paging.c:178-205 | Once one page of a tree has been mapped, no later well-formed mapping of it fails. |
| UserProcess.Process.Prepare | src/kernel/user_process.c:26-63 | The in-place call is exactly the preparation step, and a second call after success does nothing. |
| Scheduler.ScanSelects | src/kernel/scheduler.c:145-156 | The cyclic scan selects the first task, from the cursor on, among those of highest credit. |
| Scheduler.RunOncePicks | src/kernel/scheduler.c:118-166 | The task run has the highest credit of all active tasks and no earlier task in scan order equals it; nothing runs only if no task is active. |
| Scheduler.FirstBestRuns | src/kernel/scheduler.c:145-166 | Conversely, a task that no earlier attempt matches and no later one beats is the one that runs. |
| Scheduler.TaskScheduler.RunTask | src/kernel/scheduler.c:118-166 | The in-place call is exactly the scheduling step. |
| Scheduler.TaskScheduler.Add | src/kernel/scheduler.c:73-81 | The in-place call is exactly the adding step, with its refusals. |
| Scheduler.TaskScheduler.SetMode | src/kernel/scheduler.c:100-106 | The mode changes and all credits are dropped. |
| Scheduler.TaskScheduler.ActiveLaneMask | src/kernel/scheduler.c:45-56 | The mask holds exactly the lanes with an active task. |
| SchedulerRuns.RunPays | src/kernel/scheduler.c:130-164 | Credits are replenished exactly when all are spent, and then a lane of highest credit pays one. |
| SchedulerRuns.WaterLevel | src/kernel/scheduler.c:118-166 | In every reachable state there is a level t such that every lane active at the last replenish has credit between min(weight, t) and min(weight, t+1), and all others have none. |
| SchedulerRuns.UserRunsWithinFour | src/kernel/scheduler.c:20-43 | From every reachable state with a user task, one of the next four calls runs a user task, whatever is added or toggled in between. |
| SchedulerRuns.ThreeCallsAreNotEnough | src/kernel/scheduler.c:145-156 | Four is the least such bound: after five tasks are added and two calls, the next three calls pass the user lane by. |
| SchedulerRuns.RoundServesWeights | src/kernel/scheduler.c:58-66 | From a replenish on, with no mode change, what each lane has run plus its credit is its weight if it was active, else 0; and the round is over exactly after the sum of the active weights. |
| SchedulerRuns.RoundInNumbers | src/kernel/scheduler.c:20-43 | From any reachable state with all credits spent, a round in performance mode is two system, six user and one AI call, in balanced mode one, three and two, with the share of a lane without tasks left out, and spends all credits again. |
| SchedulerRuns.EveryLaneRuns | src/kernel/scheduler.c:45-66 | With mode and tasks fixed, every active lane of weight w runs within 2(W-w)+1 calls, from every reachable state. |
| SchedulerTasks.RunPicks | src/kernel/scheduler.c:118-166 | The task run has the most credit, every task at an earlier turn has less, and the cursor moves past it. |
| SchedulerTasks.TurnTaken | src/kernel/scheduler.c:145-164 | While a lane has the most credit, a call runs the given task of it, or the next one of its lane in turn, or a task of another lane without passing one of this lane. |
| SchedulerTasks.EveryTaskRuns | src/kernel/scheduler.c:118-166 | From every reachable state, with mode and tasks fixed, every task of a lane runs within twice the sum of the active weights if the lane has at most max(1, w - h + 1) tasks, h being the heaviest other weight, and within as many calls as there are tasks if its lane is the only one. |
| SchedulerRoom.TooManyStarve | src/kernel/scheduler.c:145-164 | In every mode, for every lane beside any others and every larger number of tasks, there is a list whose surplus tasks never run. |
| SchedulerRoom.ServedIffRoomy | src/kernel/scheduler.c:20-43 | A lane beside others serves all its k tasks in every reachable state if and only if k is at most max(1, w - h + 1). |
| SchedulerRoom.SecondAiTaskStarves | src/kernel/scheduler.c:147-164 | With one user task and two AI tasks in balanced mode the second AI task never runs. |
| KernelTasks.ShadowedNeverRuns | src/kernel/scheduler.c:100-164 | After a mode is set in which a lane has weight one, a task of it right behind another of it never runs, whatever is added, until the mode is changed. |
| KernelTasks.KernelStarts | src/kernel/main.c:94-118 | The five additions of the kernel lead to its task list, so the results about that list are not empty. |
| KernelTasks.KernelRound | src/kernel/main.c:94-118 | From any reachable spent state of the kernel's list, the exact order of tasks in the nine calls of a performance round and the six of a balanced one, and where the cursor ends. |
| KernelTasks.FirstPerformanceRound | src/kernel/ai.c:310-314 | After the kernel's additions and the switch to performance mode the tasks run are 1, 4, 1, 4, 0, 1, 2, 4, 0. |
| KernelTasks.PerformanceModeStopsDesktop | src/kernel/ai.c:310-314 | Whatever has happened to the kernel's task list before, setting performance mode stops the desktop task until the mode is reset. |
| KernelTasks.PerformanceKernelServes | src/kernel/main.c:94-118 | In performance mode a task of the kernel's list runs within 18 calls if and only if it is not the desktop. |
| KernelTasks.BalancedKernelServes | src/kernel/main.c:94-118 | In balanced mode every task of the kernel's list runs within 16 calls from every reachable state. |
| FatChains.NextClusterReadsFat | src/fs/fat32.c:53-63 | The reader's successor of a cluster is its FAT entry, the low 28 bits of its 32-bit word, if that can be read and the cluster is at most 0x03ffffff, and the bad mark otherwise. |
| FatChains.FollowedIffLow | src/fs/fat32.c:53-63 | A chain linked by the FAT is followed from cluster to cluster if and only if every cluster but the last is at most 0x03ffffff. |
| FatChains.WalkThroughChain | src/fs/fat32.c:80-101 | The sectors visited from the start of any chain of the FAT are those of its clusters up to the first one above 0x03ffffff, and from there those of the bad mark again and again; if there is none, the walk goes on from the last link. |
| FatChains.WalkFollowsChain | src/fs/fat32.c:80-101 | On a whole chain in good order the sectors visited are exactly those of the clusters visited: what is reached of the chain, then the bad mark if it is reached, cut at 1024. |
| FatChains.VisitedIsChain | src/fs/fat32.c:80-101 | The clusters visited are the first 1024 of the chain if and only if all of those before the 1024th are at most 0x03ffffff. |
| FatChains.FileIsConcatenatedChain | src/fs/fat32.c:79-108 | On a readable chain of the FAT a file is the concatenation of the clusters cut to its size whenever the clusters reached hold that much; else its sectors go on at the bad mark, and if that cannot be read, the file is read if and only if it fits what is reached. |
| FatChains.GoodFileIsVisited | src/fs/fat32.c:79-108 | On a whole chain in good order a file is read exactly when the clusters visited hold its size, and is then their concatenation cut to it: a file longer than 1024 clusters is never read. |
| FatChains.WideChainMisread | src/fs/fat32.c:53-63 | A good readable chain 0x04000000 -> 3 whose second half is read from the bad mark's address, or not at all if nothing can be read there. |
| FatVolume.SlotRoundTrip | src/fs/fat32.c:328-332 | Name, attributes, first cluster and size are read back from where the directory slot layout puts them. |
| FatVolume.DirectoryReadsBack | src/fs/fat32.c:177-184 | The slots of a directory are read back, 16 to a sector, from the sectors they fill. |
| FatVolume.VisibleIsUsed | src/fs/fat32.c:312-322 | The visible entries are exactly the slots in use, in order: before any slot with a zero first byte, not deleted, not part of a long name and not the label. |
| FatLayout.BootSectorRoundTrip | src/fs/fat32.c:20-51 | A boot sector laid out as the specification says is accepted exactly when its signature and sector size are right, its sizes are not zero and its root is a data cluster; then every field is recorded, and the data area begins after the reserved sectors and all FATs. |
| FatLayout.FatsPrecedeData | src/fs/fat32.c:47-48 | Every sector of every copy of the FAT lies before the data area, copy after copy, and the data area begins right after the last. |
| FatLayout.LaidWithoutWrap | src/fs/fat32.c:47-48 | A boot sector whose sizes stay below 2^32 sectors places the data area right after the reserved sectors and the FATs. |
| FatLayout.EntryInFirstFat | src/fs/fat32.c:55-57 | The entry of a cluster is looked up in the first copy of the FAT. |
| FatLayout.ClustersTile | src/fs/fat32.c:65-69 | Cluster 2 begins where the data area does, each cluster is as many consecutive sectors as the volume says, and the next begins right after it. |
| FatLayout.ClustersDisjoint | src/fs/fat32.c:65-69 | Two different clusters share no sector. |
| FatLayout.ContiguousChain | src/fs/fat32.c:79-101 | A whole chain of n clusters in a row is visited as n times the cluster size of consecutive sectors from the start of the first one. |
| FatReader.Reader.LoadVolume | src/fs/fat32.c:34-51 | Mounting succeeds exactly on a readable valid boot sector and records its fields; a failure changes neither volume nor mounted state. |
| FatReader.Reader.ReadFileClusters | src/fs/fat32.c:71-109 | Reading succeeds exactly when the file fits and every sector it needs is reachable and readable; then the buffer starts with the flat file and the size is set. On failure the size stays and the buffer starts with the sectors before the first missing one; beyond that it never changes. |
| FatReader.Reader.RootEntry | src/fs/fat32.c:294-339 | Returns exactly the i-th visible entry of the flat root directory and its rendered name, and fails exactly when there is none. |
| FatReader.Reader.FindRootFile | src/fs/fat32.c:165-207 | Returns exactly the entry that the flat lookup by name finds. |
| FatVolume.FindFileIsFirstVisible | src/fs/fat32.c:177-202 | The lookup by name finds the first visible entry of that name with neither label nor directory bit, and fails exactly when there is none. |
| FatVolume.NameReadsFirstPlain | src/fs/fat32.c:165-207 | Reading by name gives what the index of the first plain file of that name gives, and nothing when there is none. |
| FatVolume.NameAgreesWithIndex | src/fs/fat32.c:341-369 | Whatever can be read by name can be read by some 32-bit index, with the same bytes. |
| FatVolume.IndexAgreesWithName | src/fs/fat32.c:184-187 | The name of the i-th entry leads back to it exactly when it has neither label nor directory bit and no other plain file of that name comes first; reading by its name equals reading by its index exactly when the first plain file of that name, if any, reads the same. |
| FatVolume.LabelBitHidesName | src/fs/fat32.c:184-187 | On a directory of one listed file, of any name, attributes and contents, reading by index succeeds exactly when the directory bit is clear, and reading by name exactly when the label bit is clear too. |
| FatReader.Reader.ReadRootEntry | src/fs/fat32.c:341-354 | Reading by index succeeds exactly when the flat directory and file say so and the file fits. The buffer starts with what could be delivered and is otherwise unchanged; the size is set exactly on success. |
| FatReader.Reader.ReadRoot83 | src/fs/fat32.c:356-369 | The same by name. |
| FatReader.Reader.ListRoot | src/fs/fat32.c:251-292 | The listing is the header, one line per visible entry in order, and a notice exactly when an unreadable sector stops it before the end of the directory. |
| FatVolume.LineReadsBack | src/fs/fat32.c:280-286 | Size, cluster, name and kind can be read back off a line of the listing. |
| ShortNames.ShortNameRoundTrip | src/fs/fat32.c:137-163 | The rendered name can be undone to the 11-byte field if and only if the name part holds no dot. |
| ShortNames.ShortNamesDiffer | src/fs/fat32.c:137-163 | Different fields without a dot in the name part are rendered differently. |
| ShortNames.DotsCollide | src/fs/fat32.c:137-163 | With a dot in the name part two different fields can be rendered alike. |
| ShortNames.FormatShortName | src/fs/fat32.c:137-163 | The name and its terminator fit the 13-byte buffer, and a caller reads the whole name back exactly when the field holds no NUL. |
| ShortNames.PrintShortName | src/fs/fat32.c:111-135 | Printing emits exactly the characters that formatting stores. |
| ConsoleText.LayoutWraps | src/arch/x86_64/console.c:77-90 | Character-by-character layout is: split at newlines, wrap each paragraph at 80 columns, where a full line opens the next one. |
| Console.NewlineScrolls | src/arch/x86_64/console.c:43-50 | Moving every row up and blanking the last shows the last 25 lines of the longer scrollback. |
| Console.WriteExtends | src/arch/x86_64/console.c:85 | A cell written at the cursor extends the last line of the scrollback and changes nothing else. |
| Console.BlankFromCursor | src/arch/x86_64/console.c:77-90 | The cursor is on the screen, and every cell from it on is blank. |
| Console.Screen.WriteChar | src/arch/x86_64/console.c:77-90 | After every character the grid is the last 25 lines of the layout of everything written, with the cursor after it. |
| Console.Screen.Newline | src/arch/x86_64/console.c:35-51 | A new line below the text the screen shows, scrolling when it is full. |
| Console.Screen.WriteDec | src/arch/x86_64/console.c:111-130 | Writes the decimal digits of a 64-bit number within its 21-byte buffer; what is written evaluates to the number. |
| Console.Screen.WriteHex | src/arch/x86_64/console.c:100-109 | Writes 0x and sixteen hexadecimal digits that evaluate to the number. |
| ConsoleText.DecimalReadsBack | src/arch/x86_64/console.c:111-130 | The decimal digits evaluate to the number and have no leading zero. |
| ConsoleText.DecimalIsDigits | src/arch/x86_64/console.c:111-130 | The decimal digits are the characters 0 to 9. |
| ConsoleText.HexIsDigits | src/arch/x86_64/console.c:104-108 | The hexadecimal digits are the characters 0 to 9 and a to f. |
| ConsoleText.HexReadsBack | src/arch/x86_64/console.c:104-108 | The hexadecimal digits evaluate to the number and are exactly as many as asked for. |
| ConsoleText.WordReadsBack | src/arch/x86_64/console.c:100-109 | Sixteen digits hold every 64-bit number. |
| Madt.TableRoundTrip | src/arch/x86_64/acpi.c:123-149 | Encoding any records up to 255 bytes long, followed by nothing or by a broken record, and parsing them yields the number of enabled local controllers and the first 16 I/O controllers, in order with the same fields. |
| Madt.InterruptTopology.ParseMadt | src/arch/x86_64/acpi.c:123-149 | The in-place walk of any table the finder accepts adds what the recursive walk adds, nothing if the table has no whole header, and all its reads stay in the table if and only if the declared length is at least 40. |
| Madt.FinderAcceptsShortTables | src/arch/x86_64/acpi.c:110-118 | For each length from 36 to 39 there is a memory with a table of that length that the finder accepts. |
| Madt.FindTable | src/arch/x86_64/acpi.c:90-121 | Returns the first listed table with the right name, an acceptable length and a zero checksum, and 0 exactly when there is none or the root is unusable. |
| Madt.RootRoundTrip | src/arch/x86_64/acpi.c:78-106 | Length, number of entries and every address of a root table with 4- or 8-byte entries are read back. |
| Madt.ChecksumValid | src/arch/x86_64/acpi.c:19-27 | The byte-wise sum is zero modulo 256. |
| Keyboard.NothingLostOrReordered | src/arch/x86_64/keyboard.c:40-58 | With interrupts between any two steps of the reader, what is returned is a prefix of what was accepted, the rest is in the ring modulo 256, and a character is dropped exactly when 255 are unread. |
| Keyboard.KeysType | src/arch/x86_64/keyboard.c:18-47 | After any interrupts and reader steps, a key appends exactly the letter or sign it types under the shift state; a shift code, a release, a key without a character, or a key while 255 characters are unread appends nothing. |
| Keyboard.ShiftIsLast | src/arch/x86_64/keyboard.c:21-30 | Shift is down exactly when the last shift code received was a press. |
| Keyboard.LettersShift | src/arch/x86_64/keyboard.c:7-13 | A letter key types its lower-case letter, or the capital with shift down. |
| Keyboard.InterruptKeeps | src/arch/x86_64/keyboard.c:18-47 | An interrupt keeps the ring invariant wherever the reader has stopped. |
| Keyboard.ReaderKeeps | src/arch/x86_64/keyboard.c:49-58 | Each step of the reader keeps the ring invariant. |
| Keyboard.Device.HandleInterrupt | src/arch/x86_64/keyboard.c:18-47 | The in-place handler is exactly the interrupt step. |
| Keyboard.Device.Read | src/arch/x86_64/keyboard.c:49-58 | A call without interrupts inside it is the steps of the reader in a row. |

## Left out

- Raw Multiboot2 decoding: the memory map is taken as entries; the packed struct at `src/kernel/memory.c:13-20` does not have the entry layout that format specifies.
- User-mode access rights: `pml4[0]` carries no user bit, so translation and presence are modelled, not privilege.
- Reserved bits beyond bit 7 of a root entry, the TLB, `invlpg`, and the write to the control register itself; the active root is a variable.
- A second call of `paging_init` or `memory_init`; the kernel makes one of each.
- Choosing among MBR partitions in `fat32_init`: a failed attempt overwrites the sector the loop is still reading, so only loading one volume is modelled.
- The ATA protocol below a sector read, and the null-pointer checks of the FAT interface.
- The scan of low memory for the root pointer, and the console messages of `acpi.c`, `paging.c` and `user_process.c`.
- Serial output beside the screen, and waiting for the serial port.
- The process exit code and state getters, the tick counter, task names and `scheduler_task_info`: single-branch facts.
- `xhci.c`, `ata.c`, `mouse.c`, `gpu.c`, `pci.c`, `ui.c`, `desktop.c`, `ai.c`, `audio.c`, and the boot and interrupt assembly: device polling, drawing, string dispatch or machine code.
