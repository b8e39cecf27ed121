# LevOS: verified models of the kernel's stateful cores

LevOS is a small 32-bit kernel. This project models five of its components and
proves what they keep over whole runs and for arbitrary inputs:

* **Page allocator** (`Pmm.dfy`): the byte bitmap with its counter and
  high-water mark refines a set of free pages; what start-up leaves free is
  characterised exactly.
* **Page tables** (`Paging.dfy`): physical memory is one array of words, so
  directories and tables can alias; mappings are judged by the two-level walk
  of 32-bit paging (section 4.3 of the Intel SDM, volume 3A). Once paging is on,
  every load and store of the modelled kernel code goes through that walk of the
  loaded directory.
* **Processes and scheduling** (`Process.dfy`, `Scheduler.dfy`, `Runs.dfy`,
  `Creation.dfy`, `Dispatching.dfy`, `KernelTheorems.dfy`): a state machine
  that joins the allocator, memory, the process table, the TSS stack and the
  loaded directory; its events are creations, exits, dispatches and arbitrary
  execution. The table size is a parameter.
* **Kernel pointers** (`Pointers.dfy`, `PointerTheorems.dfy`, `UnclearMaps.dfy`,
  `SavedContexts.dfy`): only the first 16 MiB are mapped, and user mappings
  redirect two pages of them, so a page the allocator hands out is not always
  where the kernel's pointer leads. Which creations stay within the pages that
  are reached (`Runs.Sound`) is characterised exactly on the state before the
  call, and boot maps for which all do are named (`PointerTheorems.ClearMap`).
* **User memory** (`Protection.dfy`, `FirstRun.dfy`): what ring 3 reaches, which
  ranges system calls accept, what a new process finds at its code address, and
  with which registers the interrupt return starts it.
* **Keyboard** (`Keyboard.dfy`): the ring buffer between the interrupt handler
  and a reader that can be interrupted between any two memory accesses.
* **FAT32 reader** (`Disk.dfy`, `Fat*.dfy`): an immutable disk behind reads
  that may fail at any time and then leave anything in the buffer. Pure
  specifications of links, chains, listings, lookup, file bytes and mounting
  are refined by a class with the one sector buffer that table and data sectors
  share. `FatEncoding.dfy` writes boot records and boot sectors from the format:
  what it can write mounts, and nothing else does. Formats follow the Microsoft
  "FAT: General Overview of On-Disk Format", version 1.03 (sections "Boot Sector
  and BPB", "FAT Data Structure" and "FAT Directory Structure"), except for its
  "FAT Type Determination", from which the code departs on purpose.

Each stateful component is a class whose methods are tied by `View()` or by the
disk to specification functions; the theorems are lemmas about those functions.
Machine arithmetic (`Machine.dfy`) is written out: wrap-around is `Wrap32` and
`Wrap64`, masks are proved to be division and remainder.

A run is a list of events; a creation that is not sound, and a dispatch whose
context is not where the interrupt stub can have put it, leaves the state as it
is, so the theorems speak of every state reached before the first such event.
With a clear boot map no creation is ever unsound.

Six expectations a reader may have are false of the code; each is answered by
its exact condition and an input:

* "Creation succeeds when two pages, or four, are free": only if the lowest two
  free pages are where the kernel's pointers lead (`Pointers.KernelCreationSound`),
  or the lowest four fit, a condition on the state before the call
  (`Pointers.UserPagesFit`, `Pointers.UserCreationSound`);
  `PointerTheorems.HighMapFaults` is a boot map on which the first creation is a
  page fault, and `UnclearMaps.UnclearMapFails` finds an unsound creation for
  every boot map with an unclear page, given pages and slots enough.
* "A saved context stays where it was saved": across the creation of a user
  process exactly when its stack page is below 4096 and neither 0x400 nor 0x7ff
  (`SavedContexts.SavedContextStays`); `SavedContexts.SavedContextLost` is a run
  that loses a context saved on page 0x400, and `PointerTheorems.StackPageLost` a
  boot map on which the new process's own context is lost.
* "A usable region frees the pages inside it": exactly under `Pmm.RegionExact`;
  `Pmm.WrappingRegionFreesEverything` is a region that frees all of memory.
* "A user process reaches its own code page": exactly until the next user
  process is created (`KernelTheorems.OwnCodeIffNewest`), because directory slot
  1 is one table that all directories share.
* "A cyclic chain is an error": reading fails with ELOOP exactly when the size
  also exceeds the volume (`FatFile.LoopMeansTooBig`); `FatExamples.LoopIsRead`
  is a volume with such a chain and both outcomes.
* "A short name can be turned back into its directory bytes": exactly when the
  base has no dot and no byte is zero (`FatNames.NamePadsBack`);
  `FatNames.DotsCollide` gives two entries with one name.

Run `dafny verify dfyconfig.toml` here to check everything.

## Model

| member | source | states |
|---|---|---|
| Pmm.BitmapDetermined | src/memory/pmm.c:14-27 | the set of free pages determines every byte of the bitmap, so the abstraction loses nothing |
| Pmm.PageAllocator.SetUsed | src/memory/pmm.c:14-17 | exactly that page leaves the free set, no other bit moves |
| Pmm.PageAllocator.SetFree | src/memory/pmm.c:19-22 | exactly that page joins the free set |
| Pmm.PageAllocator.IsUsed | src/memory/pmm.c:24-27 | the shifted and masked test is non-membership in the free set |
| Pmm.RegionFreedExactly | src/memory/pmm.c:29-43 | the 64-bit page interval computed for a region is the set of pages wholly inside it if and only if `RegionExact` holds, a condition on base and length alone |
| Pmm.WrappingRegionFreesEverything | src/memory/pmm.c:31-34 | a concrete region that contains no page yet frees all 2^20 |
| Pmm.PageAllocator.FreeRange | src/memory/pmm.c:29-43 | frees its interval, keeps the counter equal to the number of clear bits whether or not pages were free before, raises the high-water mark |
| Pmm.PageAllocator.ReserveRange | src/memory/pmm.c:45-59 | removes exactly the pages the byte range touches, counter kept |
| Pmm.PageAllocator.Init | src/memory/pmm.c:61-105 | leaves the free set `BootFree` and a state in which the counter counts the clear bits, all in [1, highest page) |
| Pmm.BootFreeExactly | src/memory/pmm.c:61-105 | after start-up page p is free if and only if it lies wholly in one usable region and is touched neither by [0, max(0x1000, kernel end)) nor by the boot block; without a usable region ending at or above 0x1000 the window [1 MiB, 16 MiB) counts instead and the boot block is not excluded |
| Pmm.BootHighestExactly | src/memory/pmm.c:41-42 | the high-water mark after start-up is the highest page end, at most 2^20, of a usable region, or 4096 without a map |
| Pmm.BootFreeBounds | src/memory/pmm.c:41-42 | all free pages lie in [1, highest page) and above the kernel end, for any region list, wrapping ones included |
| Pmm.PageAllocator.AllocatePage | src/memory/pmm.c:107-117 | returns the lowest free page without overflow and removes only it; 0 exactly when the counter is 0 |
| Pmm.AllocationMeans | src/memory/pmm.c:107-117 | the address is page aligned, its page is the least free one and exactly it leaves the free set; 0 and no change when none is free |
| Pmm.LowestAreLeast | src/memory/pmm.c:107-117 | successive allocations, each handing out the lowest page left, give pages in increasing order and below every free page left |
| Pmm.PageAllocator.FreePage | src/memory/pmm.c:119-126 | page 0, out-of-range and already free pages are no-ops, otherwise the page joins the free set |
| Pmm.ReleaseMeans | src/memory/pmm.c:119-126 | the page joins the free set exactly when it is at least 1 and below the high-water mark; nothing else changes |
| Pmm.ReleaseUndoesAllocate | src/memory/pmm.c:107-126 | freeing what was just allocated restores the allocator; freeing a free page changes nothing |
| Pmm.FreeRestoresEveryBit | src/memory/pmm.c:107-126 | the same on the bitmap: every byte is as before |
| Pmm.FailureIsMonotone | src/memory/pmm.c:107-117 | a failed allocation leaves the allocator failing; a successful one takes one page |
| Paging.EntryBits | src/memory/paging.c:22-29 | the masks 1, 5, 0xfffff000 and the or with 4 read and set the present bit, the user bit and the frame number |
| Paging.PageTables.InitPaging | src/memory/paging.c:32-53 | memory becomes `PagingStarted` of what it was, and the kernel directory is the loaded one |
| Paging.PagingStartsMapped | src/memory/paging.c:32-53 | from any memory: the four identity tables and the recursive entry are in place and no other page changes |
| Paging.KernelMapIsIdentity | src/memory/paging.c:37-45 | under that mapping every address below 16 MiB translates to itself for the kernel only, and other addresses below the recursive slot fault |
| Paging.ReachesIff | src/memory/paging.c:37-50 | through a directory with the window and nothing else, a kernel pointer to a page leads to it exactly when the page lies in the first 16 MiB and its window slot shows it |
| Paging.PageTables.MapPageIn | src/memory/paging.c:55-79 | with every access walked through the loaded directory: when each pointer leads to its page (`MapServed`), allocator and memory become `MapIn` of what they were |
| Paging.MapTakesEffect | src/memory/paging.c:55-79 | without a table and a free page nothing changes; otherwise the walk of the address ends in an entry with the requested frame, present, writable and with the user bit exactly for user mappings, unless the table, old or fresh, is a page the kernel pointer does not lead to, and exactly then an access faults or goes astray |
| Paging.MapServedIff | src/memory/paging.c:63-76 | map_page_in reaches what it touches exactly when the directory and the table, old or fresh, are shown at their own place |
| Paging.MapLeavesOtherPages | src/memory/paging.c:55-79 | every other page below 0xFFC00000 keeps its frame in that directory when its tables are distinct |
| Paging.MapInEmptySlotIsPrivate | src/memory/paging.c:67-76 | a mapping in an empty slot changes no translation of any other directory |
| Paging.MapInSharedSlotIsVisible | src/memory/paging.c:63-76 | a mapping in a slot whose table is shared shows through every sharing directory |
| Paging.PageTables.CreatePageDirectory | src/memory/paging.c:87-97 | with every access walked through the loaded directory: when each pointer leads to its page (`DirectoryServed`), allocator, memory and result become `NewDirectory` of what they were |
| Paging.NewDirectoryTranslates | src/memory/paging.c:87-97 | the accesses are served exactly when the page taken is where the kernel pointer leads, and then the new directory translates every address below the recursive slot as the kernel's does |
| Paging.PageTables.UserPagePresent | src/memory/paging.c:20-30 | for a directory and tables the kernel reaches: true exactly when the walk reaches a frame with the user bit at both levels |
| Paging.PageTables.UserRangeValid | src/memory/paging.c:104-123 | for a null directory, or one the kernel reaches: true exactly when the directory is not null, the address is below the limit and every byte of the range is user memory below it; ends for every address and length |
| Pointers.KernelReaches | src/memory/paging.c:37-50 | in every state of a run, through every directory, a kernel pointer to page p leads to page p if and only if p is below 4096 and, once a user process was created, is not 0x400 or 0x7ff unless the newest user process has it as its code or user stack page |
| Pointers.KernelFaultsAbove | src/memory/paging.c:39-45 | a kernel pointer from 16 MiB up to the recursive slot is a page fault in every such state |
| Pointers.SystemCallServed | src/memory/paging.c:20-30 | user_range_valid can walk the directory of every slot in use |
| Pointers.StartServed | src/process/process.c:30-35 | process_system_init, which runs with paging on, reaches the bootstrap context |
| Process.ProcessTable.SystemInit | src/process/process.c:28-58 | the table becomes `SystemStarted`: a running bootstrap slot, the rest unused, the bootstrap context cleared |
| Process.ProcessTable.Create | src/process/process.c:60-107 | the imperative creation with its roll-back, every access walked through the loaded directory, equals `Created` when each pointer leads to its page (`CreateServed`); on failure nothing changes |
| Process.CreateRollsBack | src/process/process.c:70-76 | with fewer than two pages, freeing the stack alone restores the allocator, as the directory then is 0 |
| Process.ProcessTable.CreateUser | src/process/process.c:109-163 | the same with the three-page roll-back, two mappings and image copy, under `CreateUserServed`, which follows the translation its own mappings change |
| Process.CreateUserRollsBack | src/process/process.c:119-132 | with fewer than four pages, freeing the pages obtained restores the allocator |
| Process.ProcessTable.Terminate | src/process/process.c:165-168 | only the running slot's state changes, and the bootstrap process never exits |
| Process.ProcessTable.ByPid | src/process/process.c:192-198 | the first slot in use with the pid, none exactly when there is none |
| Process.ProcessTable.Count | src/process/process.c:201-209 | the number of runnable slots |
| Process.ProcessTable.NextRoundRobin | src/process/process.c:211-230 | the table becomes `RoundRobin`: the first runnable slot in circular order, TSS stack with it |
| Process.ProcessTable.SaveContext | src/process/process.c:232-248 | the interrupted context is copied, through the loaded directory, to the running slot's own place, aliasing included |
| Scheduler.RoundRobinScheduler.Schedule | src/process/scheduler.c:18-35 | table, resumed context and next directory are those of `Scheduled`; contexts need to be reached only when a switch is due |
| Scheduler.RoundRobinScheduler.Tick | src/process/scheduler.c:37-41 | the same, with the tick counted |
| Scheduler.RoundRobinScheduler.Yield | src/process/scheduler.c:43-46 | the same |
| KernelTheorems.CreateAllOrNothing | src/process/process.c:60-107 | in every state of a run process_create fails, changing nothing, exactly when the entry is null, fewer than two pages are free or no slot is reusable; otherwise it fills the first reusable slot with the next pid and the two lowest free pages, unless the kernel's pointers do not lead to one of those two, and exactly then an access faults or goes astray |
| KernelTheorems.CreateUserAllOrNothing | src/process/process.c:109-163 | the same for a user process, with the image size limits and the four lowest free pages as stack, code, user stack and directory; sound exactly when stack and directory are clear (below 4096, neither 0x400 nor 0x7ff), the code page is shown and not 0x7ff, and every other slot in use has a clear stack and directory, all judged before the call |
| Pointers.KernelCreationSound | src/process/process.c:70-103 | a process_create with its resources takes the two lowest free pages, the lower for the stack, and is sound if and only if both are where the kernel's pointers lead before the call |
| Pointers.UserCreationSound | src/process/process.c:119-159 | a process_create_user with its resources takes the four lowest free pages in the order stack, code, user stack, directory, and is sound if and only if they fit (`UserPagesFit`), a condition on the state before the call: the mappings hide pages 0x400 and 0x7ff from every stack and directory |
| PointerTheorems.ClearMapsSuffice | src/memory/pmm.c:61-105 | when start-up frees only pages below 4096 other than 0x400 and 0x7ff, every creation in every reachable state is sound and every free page is reached |
| UnclearMaps.UnclearMapFails | src/process/process.c:70-76 | conversely, when start-up frees a page that is 0x400, 0x7ff or above 4095, five pages above it and the table has slots enough, some sequence of process creations by the bootstrap process ends in one that faults or goes astray |
| PointerTheorems.LowMapsAreClear | src/memory/pmm.c:83-88 | a map whose usable regions end by 4 MiB is such a map |
| PointerTheorems.MissingMapIsNotClear | src/memory/pmm.c:99-101 | the window [1 MiB, 16 MiB) that replaces a missing map is not |
| PointerTheorems.HighMapFaults | src/memory/paging.c:89-94 | with memory from 16 MiB on the first process_create has its pages, is not sound, and every pointer into them is a page fault |
| PointerTheorems.StackPageLost | src/process/process.c:134-159 | with memory from 4 MiB on the first user process gets page 0x400 as its kernel stack, and after its mappings the pointer to its saved context leads to its code page |
| SavedContexts.SavedContextStays | src/process/process.c:134-135 | across the creation of a user process, through every directory there before and after, the context of each other slot in use keeps its fifteen words and was reached before; it is reached afterwards if and only if its stack page is clear, and otherwise the pointer leads to the new process's code or user stack page |
| SavedContexts.SavedContextLost | src/process/process.c:134-135 | with memory from 4 MiB on, after a sound process_create whose context lies on page 0x400 and is reached, creating a user process redirects the pointer to the unchanged context to the new code page 0x403 |
| KernelTheorems.StepKeepsInv | src/process/process.c:60-257 | every event keeps the whole invariant: pages, pids, saved contexts, TSS stack, every word of every directory and window table, and that stacks and directories are where the kernel's pointers lead |
| KernelTheorems.StartsWell | src/kernel.c:18-29 | start-up establishes it over any memory, region list and table size |
| KernelTheorems.LayoutsExist | src/memory/paging.c:8-9 | the demands on the image layout can be met: a concrete layout does |
| KernelTheorems.PagesNeverShared | src/process/process.c:65-105 | in every reachable state the stack, directory, code and user stack pages of slots in use are nonzero, outside the kernel image, marked used, and pairwise distinct within and between slots |
| KernelTheorems.PagesAreConserved | src/process/process.c:65-88 | over every run free pages plus two per kernel and four per user creation stay constant: no page ever comes back |
| KernelTheorems.PidsNeverRepeat | src/process/process.c:79-140 | in every reachable state slots in use have distinct pids, and next_pid never exceeds 0x80001, so it cannot wrap |
| KernelTheorems.ExitMakesGone | src/process/process.c:165-185 | after an exit no slot that can run has the exited pid |
| KernelTheorems.ExitedNeverRuns | src/process/process.c:211-230 | and no run whatever ever dispatches it again |
| KernelTheorems.StackAndSpaceFollow | src/process/process.c:222-224 | in every reachable state tss.esp0 and the loaded directory are the running slot's, and the bootstrap process can run |
| KernelTheorems.DispatchResumesSaved | src/process/scheduler.c:18-35 | a dispatch either returns its argument and switches nothing, or resumes context and directory of one other runnable slot; the pointer to that context leads to it through that directory, and for the bootstrap and user processes it holds exactly what was last saved, or the initial frame |
| KernelTheorems.DispatchTouchesOnly | src/process/process.c:211-248 | a switch makes the next slot running and copies the words handed over to the running slot's own context; no other slot, word of memory, page or pid changes |
| KernelTheorems.DispatchGoesRound | src/process/process.c:218-226 | the next slot is the first after the running one, counting modulo the table size, that is ready or running |
| Pointers.DispatchServed | src/process/process.c:232-248 | every pointer an enabled dispatch follows leads to its page |
| Dispatching.WaitingMeansSwitch | src/process/scheduler.c:21-23 | while a runnable slot waits the count shortcut is not taken |
| KernelTheorems.BoundedWaiting | src/process/process.c:211-230 | a runnable slot runs within as many dispatches as it is slots away, fewer than the table has, whatever is created, exits or executes meanwhile |
| KernelTheorems.UserAddressesShowNewest | src/process/process.c:134-135 | in every reachable state each user process reaches the newest user process's pages at the user code and stack addresses |
| KernelTheorems.LatestUserFollows | src/process/process.c:139-160 | along every run the newest user pid changes exactly when a user process is created, and then to a later pid |
| KernelTheorems.CreateUserRedirectsOthers | src/process/process.c:134-135 | a sound creation of a user process redirects the code address of every other user process to the new page |
| KernelTheorems.OwnCodeIffNewest | src/process/process.c:134-135 | over every run after a user process was created: while in the table it reaches its own code page if and only if no user process was created since, if and only if its pid is that of the last user creation |
| Protection.RingThreeSeesTwoPages | src/memory/paging.c:20-30 | in every reachable state, through every directory and for every address: what ring 3 may use is the user code page, leading to the newest user process's code page, or the user stack page, leading to its stack page, and nothing before a user process exists |
| Protection.ValidUserRanges | src/memory/paging.c:104-123 | for a process in the table a nonempty range is all user memory if and only if it is a user process and the range lies wholly in [0x400000, 0x401000) or wholly in [0x7ff000, 0x800000) |
| Protection.ImageAtUserAddress | src/process/process.c:134-138 | after a sound creation a ring 3 load at the user code address plus o gets byte o of the image through the new directory, and past the image what the page held before |
| FirstRun.UserStartsInRingThree | src/process/process.c:146-159 | resuming a new user process's context, read word by word from memory as the interrupt return does, enters ring 3: code and data selectors of descriptors with privilege 3, interrupts on, at an address that leads to its own code page and holds its image's first byte, the stack pointer on its own user stack page, all general registers zero |
| FirstRun.KernelThreadStarts | src/process/process.c:90-103 | resuming a new kernel thread's context enters ring 0 with interrupts on at the bootstrap routine, with the empty stack of its own stack page, inside which the interrupt return does its writes; entry and argument are in its slot |
| Protection.MappingsAreWritable | src/memory/paging.c:71-78 | in every reachable state every mapping of the first 16 MiB is writable at both levels, through every directory |
| Protection.DirectoryShowsItself | src/memory/paging.c:92-95 | in every reachable state every directory is mapped at 0xFFFFF000 through itself, for the kernel only |
| Keyboard.PutAppends | src/drivers/keyboard.c:129-138 | a character is appended to the pending ones unless 127 are pending, and then nothing changes |
| Keyboard.Driver.BufferPut | src/drivers/keyboard.c:129-138 | the driver state becomes `Put` |
| Keyboard.Driver.GetChar | src/drivers/keyboard.c:118-127 | an undisturbed call takes the oldest pending character, 0 exactly when there is none |
| Keyboard.Driver.ScancodeToAscii | src/drivers/keyboard.c:140-156 | the arithmetic on letters gives the entry of the lower or upper table that shift and caps lock select |
| Keyboard.KeyMeaning | src/drivers/keyboard.c:140-156 | releases give 0; a letter is upper case if and only if shift differs from caps lock; other keys ignore caps lock; the result is 0 if and only if no table maps the key at its level |
| Keyboard.LettersAgree | src/drivers/keyboard.c:68-116 | on letters the shifted table is the upper case of the plain one |
| Keyboard.TablesAreUs | src/drivers/keyboard.c:14-116 | for every scan code the two tables hold the characters of that key of a US keyboard, without the two brackets |
| Keyboard.KeyTypes | src/drivers/keyboard.c:140-156 | a key types the character printed on it: letters their upper one exactly when shift differs from caps lock, others their upper one with shift if they have one |
| Keyboard.Driver.HandleIrq | src/drivers/keyboard.c:158-180 | the driver state becomes `Irq` |
| Keyboard.ModifiersFollowKeys | src/drivers/keyboard.c:158-173 | over any scan codes shift is whether the key is held and caps lock the parity of its presses |
| Keyboard.InterruptKeeps | src/drivers/keyboard.c:158-180 | an interrupt at any point keeps the invariant and drops a character only when 127 are pending |
| Keyboard.AccessKeeps | src/drivers/keyboard.c:118-127 | so does every single memory access of the reader |
| Keyboard.DeliveredInOrder | src/drivers/keyboard.c:118-138 | in any interleaving the delivered characters are a prefix of the accepted, the rest are pending and at most 127, the accepted are a subsequence of the typed and all of them without a drop, and a call returns 0 exactly when it saw the buffer empty |
| Keyboard.UndisturbedCall | src/drivers/keyboard.c:118-127 | the access steps without an interrupt are one call of keyboard_getchar |
| Machine.PowerOfTwoMeans | src/filesystem/fat32.c:14-17 | the bit trick holds exactly for the powers of two |
| Machine.LittleEndianOr | src/filesystem/fat32.c:3-12 | the sums used for multi-byte fields are the or of the shifted bytes |
| Disk.BlockDevice.ReadSector | src/drivers/block.c:3-12 | rejects sectors past a known size; otherwise delivers the sector or fails and leaves anything in the buffer |
| FatFormat.TableAddress | src/filesystem/fat32.c:78-84 | on a mounted volume the table entry of every valid cluster lies in one sector of the table, without wrap |
| FatFormat.EntryMeans | src/filesystem/fat32.c:85-97 | of a table entry's 28 significant bits: from 0x0ffffff8 up the chain ends; below 0x0ffffff0 and in range they are the next cluster; anything else is bad |
| FatFormat.TableIsArray | src/filesystem/fat32.c:78-85 | on the disk as one byte array, the entry of cluster c is the four bytes at the table's start plus 4c |
| FatFormat.DataAddress | src/filesystem/fat32.c:213-215 | every data sector of every valid cluster lies after the table, inside the volume and the device, without wrap |
| FatFormat.DataSectorsDistinct | src/filesystem/fat32.c:213-215 | different clusters and sectors have different sector numbers |
| FatFormat.EndIsNoCluster | src/filesystem/fat32.c:231-233 | 0x0FFFFFFF is never a valid cluster |
| FatChain.TooLongIsCyclic | src/filesystem/fat32.c:206-210 | by pigeonhole, a chain longer than the cluster count revisits a cluster |
| FatChain.LoopGuardIsExact | src/filesystem/fat32.c:206-210 | a chain outlasts the cluster count if and only if it is cyclic, if and only if it never ends |
| FatChain.VisitedFollows | src/filesystem/fat32.c:208-233 | a walk visits exactly the clusters reached by following links |
| FatChain.WalkLoopsIffCyclic | src/filesystem/fat32.c:208-233 | a walk bounded by the cluster count ends in ELOOP exactly on cyclic chains |
| FatNames.NamesEqual | src/filesystem/fat32.c:135-150 | true exactly when the texts before the terminators are equally long and agree byte for byte, or are the two cases 0x20 apart of one ASCII letter |
| FatNames.EntryFromRaw | src/filesystem/fat32.c:152-178 | the decoded entry (`Decode`), its name at most 12 bytes; nothing for free, deleted, long-name and label slots |
| FatNames.SlotRoundTrip | src/filesystem/fat32.c:152-178 | decoding a slot laid out from the format gives back base, dot and extension, attributes, size and first cluster, for every value of each; nothing exactly for a first byte 0 or 0xE5, attributes 0x0F, or attribute bit 3 |
| FatNames.AttributeBits | src/filesystem/fat32.c:159-160 | the attribute masks test bit 4 for directories and bit 3 for volume labels |
| FatNames.NamePadsBack | src/filesystem/fat32.c:162-173 | padding a decoded name gives the eleven directory bytes if and only if the base has no dot and no byte is zero |
| FatNames.NamesAreInjective | src/filesystem/fat32.c:162-173 | among such entries equal names mean equal directory bytes |
| FatNames.DotsCollide | src/filesystem/fat32.c:162-173 | two different accepted entries that decode to one name |
| FatPath.Component | src/filesystem/fat32.c:108-133 | returns the next component in upper case and where the rest starts, end of path, or that a component is over twelve bytes |
| FatPath.SkipSeparators | src/filesystem/fat32.c:272-273 | skipping separators loses no component and reaches the end exactly when none is left |
| FatPath.FoldingKeepsParts | src/filesystem/fat32.c:100-133 | slash or backslash and letter case do not change the components |
| FatPath.SeparatorSplits | src/filesystem/fat32.c:108-133 | a separator splits the component list, for any two halves |
| FatPath.JoinedSplits | src/filesystem/fat32.c:108-133 | splitting a path joined from any list of names gives those names in upper case, up to the first one of more than twelve bytes |
| FatPath.ExtraSeparators | src/filesystem/fat32.c:117-118 | leading, trailing and repeated separators do not matter |
| FatDirectory.EntriesAppend | src/filesystem/fat32.c:218-227 | live entries of two slot lists are those of the first and, unless it holds the end mark, of the second |
| FatDirectory.ListOneCluster | src/filesystem/fat32.c:208-233 | a listing is a cluster's entries and, without an end mark, the rest of the chain's, with the status of the link |
| FatDirectory.LoopsIffCyclic | src/filesystem/fat32.c:206-234 | a scan that nothing stops and that meets no end mark gives ELOOP exactly when the chain is cyclic, and with an end mark it succeeds whatever the chain does later |
| FatDirectory.FullDirectoryEnds | src/filesystem/fat32.c:230-234 | a directory without an end mark whose last table entry is 0x0ffffff8 or more lists well; with 0x0ffffff7 or any other number that is no cluster it gives EBADFS |
| FatDirectory.OneSlot | src/filesystem/fat32.c:221-227 | a slot lists its decoded entry, unless it is the end mark or decodes to nothing |
| FatDirectory.FoldAppend | src/filesystem/fat32.c:224-226 | a callback that stops early sees nothing further |
| FatLookup.FindCallbackFinds | src/filesystem/fat32.c:186-195 | scanning with the find callback yields the first entry of that name |
| FatLookup.ResolveAfterDescent | src/filesystem/fat32.c:247-283 | resolving a list is descending through its front and resolving the back there, or the front's error |
| FatLookup.DescentEnters | src/filesystem/fat32.c:263-280 | one more component leads on exactly when the first entry of its name has attribute bit 4 and a cluster from 2 to clusterCount + 1; otherwise ENOTDIR, EBADFS, ENOTFOUND or the listing's error |
| FatLookup.RootIsFound | src/filesystem/fat32.c:251-258 | a path of separators, or of nothing, is the root directory with attributes 0x10 |
| FatLookup.InnerDotIgnored | src/filesystem/fat32.c:261-262 | a "." that is not last never changes the result |
| FatLookup.DotBetweenSeparators | src/filesystem/fat32.c:261-262 | on paths, a "." between separators with a component after it is one separator |
| FatLookup.FinalDot | src/filesystem/fat32.c:251-260 | a final "." resolves exactly when the components before it lead to the root cluster, else ENOTFOUND |
| FatLookup.LastComponentIsFirstMatch | src/filesystem/fat32.c:263-281 | a last component is found exactly when its directory lists it, as the first match up to case; otherwise the listing's error or ENOTFOUND |
| FatLookup.LookupIgnoresSpelling | src/filesystem/fat32.c:237-284 | lookup depends only on the component list: separators, repetition and case do not matter |
| FatLookup.LookupIgnoresCase | src/filesystem/fat32.c:100-150 | paths whose bytes are equal, or the two cases 0x20 apart of one ASCII letter, have one outcome |
| FatFile.Position | src/filesystem/fat32.c:471-488 | byte o of sector k of the n-th cluster is byte n * clusterBytes + k * sectorBytes + o of the file |
| FatFile.FileIsArray | src/filesystem/fat32.c:473-488 | on the disk as one byte array, byte i of a file lies at the data area's start plus (cluster - 2) * clusterBytes plus i mod clusterBytes, in the cluster i / clusterBytes links on |
| FatFile.DirectoryIsFile | src/filesystem/fat32.c:211-222 | the slots a listing looks at are the chain read as a file: slot k is its bytes 32k to 32k + 31 |
| FatFile.ReadSucceedsIff | src/filesystem/fat32.c:465-498 | reading succeeds if and only if the size fits the volume and the chain reaches the cluster of every byte |
| FatFile.AcyclicChainsAreRead | src/filesystem/fat32.c:465-498 | a long enough acyclic chain is always read |
| FatFile.LoopMeansTooBig | src/filesystem/fat32.c:471-472 | ELOOP if and only if the chain is cyclic and the size exceeds the volume's capacity |
| FatFile.CyclicChainsAreReadToo | src/filesystem/fat32.c:469-496 | a cyclic chain is read without complaint when the size fits |
| FatFile.DeliverSector | src/filesystem/fat32.c:473-488 | a sector's bytes continue the file where the previous ones end |
| FatMount.PickIsFirst | src/filesystem/fat32.c:332-357 | the volume is the first candidate in try order that is plausible, read without failure and acceptable; none exactly when there is none |
| FatMount.AcceptedGeometryIsSafe | src/filesystem/fat32.c:366-411 | every accepted boot sector gives a geometry whose table and data addresses fit 32 bits, the volume and the device |
| FatMount.AcceptedSizes | src/filesystem/fat32.c:366-370 | sector sizes are 512 to 4096 and cluster sizes 1 to 128 sectors, powers of two |
| FatMount.MountedIsSafe | src/filesystem/fat32.c:286-413 | whatever volume mounting picks, its geometry is safe |
| FatEncoding.RecordDecodes | src/filesystem/fat32.c:321-330 | from any boot record laid out from the format, the table read back has every type, start and size that was written |
| FatEncoding.PickedFirst | src/filesystem/fat32.c:336-357 | without failed reads the entry taken is the usable one tried first: types 0x0B, 0x0C, 0x1B and 0x1C before the others, each in table order |
| FatEncoding.FormattedDeviceMounts | src/filesystem/fat32.c:312-411 | a device on whose sector 0 a boot sector of any permitted format was written mounts, with every field of that format |
| FatEncoding.FormattedPartitionMounts | src/filesystem/fat32.c:321-411 | so does a partitioned device, at the start of the first entry in try order that is usable, when a formatted volume lies there |
| FatEncoding.MountedIsFormatted | src/filesystem/fat32.c:360-411 | and nothing else: where mounting succeeds the volume's first sector is a boot sector written from a permitted format that fits, and the geometry is that format's |
| FatExamples.SmallVolumeMounts | src/filesystem/fat32.c:286-413 | a concrete one-table volume mounts whenever sector 0 is read, with a safe geometry of 68 clusters |
| FatExamples.LoopIsRead | src/filesystem/fat32.c:469-496 | on that volume cluster 2 links to itself; a file that starts there is read up to 34816 bytes and gives ELOOP for every larger size |
| FatPartitioned.ReadmeIsRead | src/filesystem/fat32.c:237-499 | a disk with a partition table, a volume at sector 2048 and one file, written byte by byte: it mounts there, "/readme.txt" finds README.TXT with its size and cluster, and its bytes come from the partition's data sectors |
| Fat32.CountClusters | src/filesystem/fat32.c:393-406 | the 64-bit arithmetic does not wrap: accepted exactly under `CountsOk`, with that data start and cluster count |
| Fat32.Volume.ReadSector | src/filesystem/fat32.c:49-61 | on a mounted volume no sector before the data end is rejected: it is delivered or the device failed |
| Fat32.Volume.NextCluster | src/filesystem/fat32.c:68-98 | without a failed read the result is the link of the cluster, reserved values first; its range checks never fire |
| Fat32.Volume.ScanDirectory | src/filesystem/fat32.c:197-235 | for any chain and callback: the callback's final state and the status are those of folding it over the listing; one failed read gives EBADFS for a table sector and EIO for a data sector, and the callback has then seen a prefix of the listing |
| Fat32.Volume.Lookup | src/filesystem/fat32.c:237-284 | without a failed read the outcome is `FatLookup.Lookup`; a failed read is an error |
| Fat32.Volume.Mount | src/filesystem/fat32.c:286-413 | succeeds exactly when the chosen volume's own boot sector fits, with that sector's geometry although rejected candidates overwrote the buffer; EIO exactly when sector 0 fails; a failed mount leaves nothing mounted |
| Fat32.Volume.ListDirectory | src/filesystem/fat32.c:415-433 | without a failed read: the lookup's status if it fails, ENOTDIR if bit 4 of the entry's attributes is clear, else the callback folded over exactly the live entries of its chain, in order, until its first nonzero result or the end mark; after a failed read over a prefix of them, or over nothing |
| Fat32.Volume.ReadFile | src/filesystem/fat32.c:435-499 | on the entry e that the lookup finds: OK means e is no directory, e.size bytes were delivered and each is the one found by following links from e's own first cluster; without a failed read EISDIR, EINVAL, ENOSPC, ELOOP and OK hold each if and only if a condition on e's attributes, size and chain and on the capacity holds, and a lookup that fails gives its status; bytes past the size are never touched |

## Left out

- Assembly, port I/O, control register loads and the interrupt stubs: the model starts at the C handlers. Of the stubs only the end of the common one (src/cpu/idt.asm:24-42) is modelled, for the first resumption of a process (`FirstRun.Resumed`); no claim is made about registers across other interrupts.
- The ATA driver: reads go through `block_read_sector` with an arbitrary failure oracle behind it. Terminal, shell, system call switch, timer and GDT/IDT packing are one-branch facts or user interface.
- Pmm.PageAllocator.Init: takes the list of memory-map regions; the walk over boot tags (src/memory/pmm.c:70-94) is not modelled, so malformed tags are not either.
- Paging.PageTables.MapPageIn, and the other methods that follow kernel pointers, demand that each pointer leads to its page; what the kernel does after a page fault (it prints and halts, src/cpu/interrupts.c:111-118) or after a stray store is not modelled.
- The TLB is not modelled. A sound creation touches only pages that both the translation before its mappings and the one after it reach, so a stale entry makes no difference to it.
- Runs: creation and allocation are atomic events, made only by a process that has not exited; running code changes any memory except page tables and contexts saved for other slots; a dispatch is handed a context where the interrupt stub puts it, right under tss.esp0 from ring 3 and on the running stack from ring 0 (`Runs.ContextPlaced`, `Runs.ContextReached`); the variable `running` is never null, as after process_system_init.
- Runs.LayoutOk: assumes that the image, which linker.ld:5 starts at 1 MiB, ends below 4 MiB.
- KernelTheorems.DispatchResumesSaved: saved contents are claimed for the bootstrap and user processes only; a kernel thread's saved frame shares its bytes with its live stack.
- Nothing states that at most one slot is RUNNING, that exit returns pages or that free_page refuses reserved pages: the code does none of these.
- Scheduler.RoundRobinScheduler.Schedule: demands that the context and the running slot's saved context are aligned addresses inside memory, as the interrupt stub and creation provide.
- Directory callbacks are functions of a state and an entry, so they cannot call back into the volume.
- Fat32.Volume.ReadFile: the output buffer is not the volume's own sector buffer and holds `capacity` bytes; a null output pointer and a null volume (EINVAL in the code) have no counterpart. EOVERFLOW is never returned by the code.
- FatNames.EntryFromRaw: names are byte sequences without their terminator; the terminator and the fixed name array are not modelled. Signedness of `char` does not matter, as only ASCII letters are compared by range.
- Fat32.Volume.Lookup: returns the entry as a value; the code fills a caller's structure, and also does so before some errors.
