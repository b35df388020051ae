# PepinOS: a verified model

PepinOS is a small x86-32 kernel in C. This project models its hard parts in Dafny and proves what
they are for:

- **memory** (`Pmm`, `Memory`, `Machines`, `Vmm`, `Paging`, `Elf`, `Isolation`): the bitmap allocator,
  two-level page tables that live in the frames the allocator hands out, the translation cache, the
  ELF loader (with `ElfFile`, the format it reads), and isolation over any sequence of loads;
- **scheduling and signals** (`List`, `Kernel`, `Scheduler`, `Runs`, `Signals`, `Boot`): the intrusive
  list, the context switch, and properties of whole runs;
- **files** (`Ext2`, `Vfs`, `Syscalls`, `Descriptors`): the ext2 reader, the node pool, descriptors;
- **keyboard** (`Keyboard`, `Readers`): the ring buffer between an interrupt and an interruptible reader,
  and why there is only one reader at a time;
- **a program from its file to its first instruction** (`ElfExec`, with examples in `Programs`), and **the
  whole** (`Whole`): memory and tasks together, from `kmain` through any history of loads, switches and
  system calls.

Code that changes things in place is imperative Dafny: `Allocator`, `Machine`, `TaskTable`, `ListHead`,
`Driver`, `FileSystem`, `Dispatcher`, `Loader` and `Keyboard` are classes over the arrays, fields and
links of the C code, with its loops. Each method is proved against a function or relation on values,
and the theorems are about those: in particular `Kernel.Next` is one step of the kernel (a timer tick,
Ctrl+C, a system call, a registration), `TaskTable` and `Dispatcher` refine it, and `Runs`, `Signals`
and `Descriptors` reason about arbitrary sequences of such steps.

How the pieces are represented:

- RAM is an array of 8192 frames of 1024 words. Bytes in a frame are little endian. A ghost map gives
  each frame in use its owner (reserved, directory, page table of one slot of one directory, user page
  of one directory, kernel stack). `Memory.Owned` says that every table a directory reaches belongs to
  that slot, or is a live table of the kernel directory; `Machines.Consistent` adds that owned frames
  are marked in the bitmap and identity mapped. `Memory.Walk` is the walk of section 4.3 of the Intel
  SDM, volume 3A (32-bit paging).
- Words used as numbers are integers below 2^32 with the wrap-around written out; words used as bit
  sets (the bitmap, the pending signals) are 32 booleans.
- Pointers into static pools are indices; a list node carries the index of the record it is embedded
  in. The disk is an immutable function from block address to 512-byte sector.
- The buffer `blk_b` is followed by the bytes a directory record can reach beyond it, and the ELF buffer
  preceded by those the first page of a segment can reach before it, of any content. What the ELF
  buffer holds after the file is whatever it held before.
- CR0, CR3 and the TSS field esp0 are fields of a `Cpu` that the paging code and the scheduler share.
- Strings passed by a user, the memory behind a user's buffer, scan codes and interrupted contexts
  are parameters. Words pushed on a user stack are returned as stores.
- What a caller of a routine must provide, because the C code does not check it, is a precondition:
  frames left for the allocator (below 16 MB, the identity-mapped range), a free place in the task
  pool, program segments inside the ELF buffer and in directory slots that the kernel does not use,
  room in a read buffer for the bytes that are delivered, a block size of 1024, 2048 or 4096 and an
  inode size between 128 and the block size.

## Where the code and its documentation differ

A property that fails is stated with its exact condition, and with an input.

- `mm/pmm.h` says that the first 4 MB are always marked used. `pmm_free_page` does not enforce it:
  `Pmm.ReservedKept` says exactly when it holds, `Pmm.FrameZeroFreed` is a run in which it does not.
- `mm/pmm.c` says that `pmm_alloc_page` returns 0 when there is no memory. It also returns 0 when frame 0
  is free, as after a release of address 0, which a caller makes by giving back a failed allocation:
  `Pmm.Allocator.AllocPage`, `Pmm.FrameZeroFreed`. While no reserved frame is released, 0 does mean that
  no frame is free: `Pmm.ZeroMeansExhausted`.
- `fs/elf.c` presents `proc_map_page` as the counterpart of `vmm_map_page` for another directory. In a slot
  inherited from the kernel directory it overwrites a translation of the kernel, as for a program linked below 16 MB: `Memory.MapLeavesOthers`,
  `Memory.MapInherited`.
- The loader rounds the end of a segment up to a page in 32 bits. When that sum passes 2^32 the segment
  is not loaded (but for its first page, if it claims nearly 4 GB), and the program is started all the
  same: `Elf.CoversAllIff`, `Programs.HighSegmentLost`. (A segment whose file part ends past 2^32 has its
  pages filled with zeros instead: `Elf.Phdr.FileEnd`.)
- `fs/elf.c` reads the file into a 64 KB buffer, but `ext2_read_file` stops at twelve blocks. The rest of a
  longer program is what the buffer held before, from an earlier load: `ElfExec.FromFileIff`,
  `ElfExec.ReadsFile`, `Programs.LongProgram`.
- `mm/vmm.c` invalidates the translation of the one address. The built-in tasks' directories have a second
  one for every page below 16 MB, at KERNEL_VIRTUAL, which may stay cached: `Vmm.CacheAfterMap`,
  `Vmm.CacheOfBuiltInTask`, `Vmm.StaleAlias`.
- `process/signal.h` and `process/syscall.h` say that SIGRETURN restores the saved context. It writes
  nine frame words, of which the stub lets only the five of the interrupt return take effect, and EAX
  comes back as 0: `Signals.RestoredEntirely`, `Signals.EaxLost`.
- A pending signal without a handler holds back all signals with a higher number (`Signals.DeliveryIff`).
- `fs/ext2.c` describes `ext2_pread` as a positioned read. When `offset + size` passes 2^32 the end of
  the file no longer stops it: `Ext2.PreadIsSlice`, `Ext2.OverrunExample`; for successive reads
  `Ext2.ReadsCompose`, `Ext2.ReadsOverrunExample`.
- Inode records are found at multiples of the inode size only if that divides the block size:
  `Ext2.InodePosition`, `Ext2.MisplacedInode`.
- A directory entry with a zero byte in its name is listed under a shorter name that cannot be opened:
  `Ext2.FoundIffListed`, `Ext2.ListedNotFound`.
- `create_task_space` takes two addresses but fills in one directory slot, that of the code, and one table
  entry if their indices are equal: `Paging.StackMappedIff`, `Paging.CodeMappedIff`, `Paging.StackLost`.
- `do_switch` stores CR3 into the task it leaves. `Runs.SwitchKeepsSpaces` says when that is harmless; once
  `sched_enter` has run it always is: `Runs.SpacesKept`.

## Model

| member | source | states |
|---|---|---|
| Pmm.Allocator.Init | mm/pmm.c:35-54 | afterwards exactly the reserved 4 MB and the frames past the end of memory are used, and the free counter equals the number of clear bits below the total |
| Pmm.Allocator.SetUsed | mm/pmm.c:13-16 | one frame joins the set that the bitmap stands for, no other bit changes |
| Pmm.Allocator.SetFree | mm/pmm.c:18-21 | one frame leaves the set that the bitmap stands for, no other bit changes |
| Pmm.Allocator.AllocPage | mm/pmm.c:60-71 | hands out the least free frame and takes it; the address returned is 0 if and only if no frame is free or frame 0 is; the counter stays right |
| Pmm.Allocator.FreePage | mm/pmm.c:76-83 | the addressed frame becomes free if it is managed; releasing a free or unmanaged frame changes nothing; the counter stays right |
| Pmm.NoDoubleGrant | mm/pmm.c:60-83 | in any run of calls, a frame granted twice was released in between |
| Pmm.ReservedKept | mm/pmm.c:76-83 | the first 4 MB stay used in every state of a run if and only if no call releases one of those frames |
| Pmm.ZeroMeansExhausted | mm/pmm.c:60-71 | while no call releases one of the first 1024 frames, none of them is handed out and address 0 is returned if and only if no frame is free |
| Pmm.FrameZeroFreed | mm/pmm.c:60-83 | with 32 MB, after a release of address 0 the next allocation returns 0 while 7169 frames are free |
| Pmm.FramesConserved | mm/pmm.c:60-83 | over any run, free frames plus grants equal the frames free at the start plus the releases that took effect |
| Machines.Machine.TakeFrame | mm/pmm.c:60-71 | while a frame below 16 MB is free, the frame handed out is below 16 MB and nothing in memory owns it |
| Machines.Machine.ZeroWords | mm/vmm.c:36-37 | the frame is all zeros and no other frame changes |
| Machines.Machine.CopyWords | fs/elf.c:51-52 | one frame becomes a copy of another and no other frame changes |
| Machines.Machine.ZeroBytes | mm/paging.c:5-10 | clearing byte by byte clears all words, and no other frame changes |
| Machines.Machine.CopyBytes | fs/elf.c:144-145 | the copied bytes are the buffer's, the rest of the frame and all other frames keep theirs |
| Machines.Machine.EnsureTable | fs/elf.c:70-75 | an absent slot gets a fresh zeroed table that nothing else owns, a present one is left alone; the ownership invariant is kept |
| Machines.Machine.MapEntry | fs/elf.c:62-79 | memory, owners and allocator after entering one page in a directory, as functions of the state before, with the ownership invariant kept |
| Machines.Machine.Invlpg | mm/vmm.c:45-45 | whatever the processor cached before and after the stores, nothing is cached for the invalidated page |
| Memory.MapKeeps | fs/elf.c:62-79 | entering a page, in any slot, keeps the ownership invariant and writes to no frame in use but the directory and that page's table |
| Memory.MapWalk | fs/elf.c:62-79 | entering a page, in any slot of any directory, changes exactly that page and the same entry of every slot that refers to the same table |
| Memory.MapPrivate | fs/elf.c:62-79 | in an empty slot or one of the directory's own, it changes no other directory (for the kernel directory: only those that share the table) |
| Memory.MapLeavesOthers | fs/elf.c:62-79 | a map in a process directory leaves every translation of every other directory alone, whatever it enters, if and only if its slot is empty or its own |
| Memory.MapInherited | fs/elf.c:70-78 | in a slot inherited from the kernel directory, the kernel's translation of the corresponding page becomes the entry |
| Memory.StoreWalk | fs/elf.c:77-78 | writing one table entry changes exactly the pages that go through that entry |
| Vmm.MapIsInsert | mm/vmm.c:24-46 | vmm_map_page is insertion of one key in the partial map from pages to frames and rights |
| Vmm.UnmapIsRemove | mm/vmm.c:51-65 | vmm_unmap_page is removal of one key, and keeps the ownership invariant |
| Vmm.MapThenUnmap | mm/vmm.c:24-65 | mapping an unmapped page and unmapping it again restores every translation of every directory |
| Vmm.CacheAfterMap | mm/vmm.c:41-45 | with any directory in CR3 and however the cache was filled, it agrees with the tables after vmm_map_page, whatever is entered, if and only if no other slot of that directory gives a present translation through the same entry of the same table |
| Vmm.CacheAfterUnmap | mm/vmm.c:61-64 | the same for vmm_unmap_page, with the table the page has |
| Vmm.CacheWhenStraight | mm/vmm.c:24-65 | so both are coherent with the kernel directory in CR3, or any that uses the kernel's tables only where the kernel directory does |
| Vmm.CacheOfBuiltInTask | mm/paging.c:95-97 | with a built-in task's directory in CR3, as set up at boot, both are coherent if and only if the page is at or above 16 MB |
| Vmm.StaleAlias | mm/vmm.c:45-45 | a cached translation that the invlpg leaves and the tables no longer give |
| Vmm.MapPage | mm/vmm.c:24-46 | with any directory in CR3, the in-place code enters the bitwise or of address and flags, whatever they are, as MapIsInsert has it; the cache holds what LeftAfter allows, and agrees with the tables where the page has no alias |
| Vmm.UnmapPage | mm/vmm.c:51-65 | with any directory in CR3, the in-place code does what UnmapIsRemove speaks of; the cache holds what LeftAfter allows, and agrees with the tables where the page has no alias |
| Vmm.EntryFor | mm/vmm.c:42-42 | for an aligned address and flags below 4096 the entry has that frame and those flags |
| Bits.OrBit | mm/vmm.c:42-42 | the bitwise or, bit by bit |
| Paging.InitPaging | mm/paging.c:18-46 | the kernel directory and its four tables hold the identity mapping and nothing else, no other frame is written, CR3 is the directory and paging is on |
| Paging.KernelWalk | mm/paging.c:28-38 | the kernel directory translates exactly the pages below 16 MB, each to itself |
| Paging.CreateTaskSpace | mm/paging.c:56-98 | every word of the new directory and table, and no other frame is written |
| Paging.TaskWalk | mm/paging.c:65-97 | the exact translation of a task directory: identity below 16 MB, the high alias without user access, the code and stack pages, nothing else |
| Paging.StackMappedIff | mm/paging.c:73-97 | for every stack address, the exact condition for the stack to be mapped there: in user slots, that it shares the slot of the code |
| Paging.CodeMappedIff | mm/paging.c:73-97 | for every code address, the exact condition for the code to be mapped there: in user slots, that the stack has another index or the same frame |
| Paging.StackLost | mm/paging.c:73-80 | arguments for which the stack is not mapped, and the code nowhere outside the kernel's slots |
| Paging.TaskKept | mm/paging.c:56-98 | building another directory leaves every translation of this one as it was |
| Paging.BootOwned | process/task.c:22-36 | the tables built at boot satisfy the ownership invariant |
| Paging.Boot | kernel/kernel.c:88-91 | after the memory set-up the machine invariant holds, with both built-in address spaces in place and CR3 the kernel directory |
| Elf.LaidOutIffCovered | fs/elf.c:119-130 | a page belongs to the program if and only if some PT_LOAD segment covers it |
| Elf.LastSegmentWins | fs/elf.c:119-150 | a page that several segments cover holds the last one |
| Elf.EmptyProcess | fs/elf.c:44-55 | a clone of the kernel directory in a fresh frame is an address space without pages of its own |
| Elf.FillFrame | fs/elf.c:131-146 | filling a fresh frame changes nothing of the address space under construction |
| Elf.EnterPage | fs/elf.c:148-150 | mapping a filled frame adds exactly that page to the address space, its frame shared with no other page |
| Elf.MapAvoids | fs/elf.c:62-79 | building the new address space writes no frame that was in use before the load |
| Elf.AllocPd | fs/elf.c:44-55 | the new directory is a fresh low frame holding the kernel's entries |
| Elf.SegmentBounds | fs/elf.c:127-128 | the page range of a segment, with the 32-bit sum wrapping |
| Elf.FillPage | fs/elf.c:131-146 | the page holds the ELF buffer's bytes where the segment has them and zeros after them, also when the segment starts inside the page, when the 32-bit source offset is negative, and when the 32-bit end of the file part wraps |
| Elf.MapPage | fs/elf.c:62-79 | proc_map_page for the new address space: the page is added, at the price of a table if its slot was empty |
| Elf.LoadPage | fs/elf.c:130-152 | one round of the page loop: the page is in place and paid for |
| Elf.LoadSegment | fs/elf.c:127-152 | the pages of one segment, over what was there, for one frame each and one per new table |
| Elf.LoadSegments | fs/elf.c:119-153 | all program headers in order |
| Elf.LoadStack | fs/elf.c:156-163 | the zeroed stack page is added |
| Elf.TakeKernelStack | fs/elf.c:166-166 | the kernel stack is a fresh low frame, and the address space is unchanged |
| Elf.LoadProgram | fs/elf.c:115-166 | the new directory sees exactly the program, every frame and owner from before is untouched, and exactly 3 frames plus one per segment page plus one per directory slot used are gone, all distinct and free before |
| Elf.ReadsSegment | fs/elf.c:119-153 | read through the new directory, an address of a segment on a page it covers, and that no later segment's page and not the stack covers, is the ELF buffer's byte, and zero past the segment's file part (System V gABI chapter 5, PT_LOAD) |
| Elf.CoversAllIff | fs/elf.c:127-130 | a segment covers all of its addresses if and only if its rounded-up end does not pass 2^32, and otherwise at most its first page |
| Elf.ReadsNothing | fs/elf.c:119-163 | a user address that no segment covers and not the stack is unmapped |
| Elf.ReadsStack | fs/elf.c:155-163 | every address of the stack page reads zero |
| ElfFile.HeaderRoundTrip | fs/elf.h:18-33 | parsing the bytes of an ELF header, laid out from its fields, gives back entry point, table offset, entry size and count; it is recognised if and only if it begins with 0x7F, E, L, F |
| ElfFile.PhdrRoundTrip | fs/elf.h:36-45 | parsing the bytes of a program header gives back its fields |
| ElfFile.FileRoundTrip | fs/elf.c:119-122 | of a file that starts with a header and holds program headers where it says, the loader sees exactly those, in order |
| Isolation.InUsePreserved | fs/elf.c:115-166 | over any sequence of loads, frames in use keep contents and owner |
| Isolation.WalksPreserved | fs/elf.c:44-79 | over any sequence of loads, every walk of the kernel directory and of every process directory stays what it was |
| Isolation.PagesKept | fs/elf.c:130-152 | after any later loads each page of a process is in the frame it was given, its own and with the same contents |
| Isolation.StillSees | fs/elf.c:115-166 | after any later loads a process still sees exactly its program |
| Isolation.StillReads | fs/elf.c:119-153 | after any later loads a process still reads the byte its ELF buffer had, or zero, at every address of its segments that no later segment and not the stack covers |
| Isolation.ProcessesDisjoint | fs/elf.c:115-166 | two loaded processes have different directories and kernel stacks and share no user frame |
| Isolation.LoadsConserveFrames | fs/elf.c:115-166 | frames free at the end plus what the loads cost are the frames free at the start |
| ElfExec.Loader.Fetch | fs/elf.c:92-113 | missing file, file below 52 bytes and bad magic are told apart; otherwise the buffer holds the file as far as its twelve direct blocks reach and, after that, what it held before |
| ElfExec.Loader.Exec | fs/elf.c:85-184 | a refused file changes neither memory nor tasks; any other is loaded as LoadProgram says and registered, and if it starts with the bytes of an ELF header the task has that header's entry point, the selectors, flags and stack pointer of user mode, and the new directory and kernel stack |
| ElfExec.Judge | fs/elf.c:93-113 | which files are refused and why, by inode, length and first four bytes |
| ElfExec.TaskWords | fs/elf.c:173-179 | every word of a loaded program's task, in numbers |
| ElfExec.EntryOf | fs/elf.c:173-173 | the entry point taken from the buffer is that of the header the file starts with |
| ElfExec.LoadableAfterBoot | fs/elf.c:119-153 | with the kernel directory of init_paging, a file is loadable if and only if its headers, and its segments that have pages, lie inside the buffer and no segment page is below 16 MB |
| ElfExec.FileIsContents | fs/elf.c:101-101 | what the loader reads is the file's contents up to its twelve direct blocks, which never fill the 64 KB buffer |
| ElfExec.ReadsFile | fs/elf.c:119-153 | where ReadsSegment applies the process reads the file's byte on the volume as far as the loader has read, beyond that what the buffer held before, and zero past the segment's file part |
| ElfExec.StillReadsFile | fs/elf.c:119-153 | the same after any later loads |
| ElfExec.FromFileIff | fs/elf.c:101-145 | for every earlier content of the buffer a segment comes from the file, and equivalently does not depend on that content, if and only if its part of the file ends within the twelve direct blocks |
| Programs.HighSegmentLost | fs/elf.c:127-130 | a loadable file of 84 bytes whose only segment, at 0xFFFFF000, is not mapped |
| Programs.LongProgram | fs/elf.c:101-145 | an accepted and loadable file of 20000 bytes of which 12288 are read, and whose process reads the buffer's earlier content from there on |
| ElfExec.StartsAtEntry | process/scheduler.c:90-105 | whatever happens in between, the first switch to a registered task gives its initial context with its EIP, CS, EFLAGS, ESP and SS and zeros, its CR3 and its kernel stack, and delivers nothing |
| Boot.LaunchTasks | process/task.c:40-49 | both built-in tasks registered as given, esp0 that of the first |
| Boot.BuiltInTasks | process/task.c:46-49 | every argument of the two registrations, in numbers |
| Boot.SchedEnter | process/task.c:63-78 | multitasking starts in a state with all the invariants that the theorems about runs start from, with CR3 the first task's; the interrupt return goes to 0x40000000 on stack 0x40001FF0 with the user selectors, and the kernel's flags with bit 9 set and no other changed |
| Boot.InterruptsEnabled | process/task.c:72-72 | setting bit 9 by a bitwise or sets that bit and no other |
| Boot.FreshStarted | process/scheduler.c:28-62 | newly registered tasks have nothing open, pending or running |
| List.Insert | lib/list.h:65-73 | the node is in the ring after `prev`, and next and prev are inverse around the longer ring |
| List.ListAdd | lib/list.h:76-79 | prepends to the list |
| List.ListAddTail | lib/list.h:82-85 | appends to the list |
| List.ListDel | lib/list.h:88-92 | removes exactly that node; its own next link survives |
| List.ListEmpty | lib/list.h:95-98 | true if and only if the list has no elements |
| List.VisitRound | lib/list.h:121-124 | one round of the safe iteration, whether or not its body deletes the node |
| List.ForEachSafe | lib/list.h:121-124 | every original element is visited once and in order while the body deletes any of them, and the others remain linked in order |
| Kernel.Lowest | process/scheduler.c:120-122 | the least pending signal from a given number on |
| Kernel.Deliverable | process/scheduler.c:119-124 | a delivered signal is the lowest pending one, has a handler, and none is running; if nothing is delivered, a handler is running or no lowest pending signal has a handler |
| Kernel.FreeFd | process/syscall.c:46-47 | the least unused descriptor from 3 on |
| Scheduler.TaskTable.constructor | process/scheduler.c:10-14 | an empty ring and no current task |
| Scheduler.TaskTable.AddTask | process/scheduler.c:28-62 | the task is last in the ring, initialised, and current if it is the first |
| Scheduler.TaskTable.Signal | process/scheduler.c:22-26 | refines the step function: the bit is set for the current task, out-of-range numbers do nothing |
| Scheduler.TaskTable.NextTask | process/scheduler.c:90-96 | following the link, and past the sentinel, gives the next registered task going around, also for one task |
| Scheduler.TaskTable.Switch | process/scheduler.c:85-105 | context and CR3 saved, next context, CR3 and esp0 loaded, ring intact |
| Scheduler.TaskTable.FindSignal | process/scheduler.c:120-122 | the search loop finds the lowest pending signal |
| Scheduler.TaskTable.Deliver | process/scheduler.c:119-138 | delivery as the step function has it, or nothing |
| Scheduler.TaskTable.DoSwitch | process/scheduler.c:74-140 | state, context and pushed words are those of the step function's tick, and the ring invariant is kept |
| Runs.SpacesKept | process/scheduler.c:85-105 | once CR3 and esp0 are the running task's they stay so in every run, and no task's CR3 or kernel stack ever changes |
| Runs.SwitchKeepsSpaces | process/scheduler.c:85-88 | one switch keeps all directories if and only if CR3 was the running task's |
| Runs.InstallStep | process/syscall.c:93-101 | a step changes a handler of a task if and only if it is a SIGACTION of that task for that signal, and then to its argument |
| Runs.FilesStep | process/syscall.c:40-83 | a step changes descriptors of a task only if it is an OPEN, CLOSE or READ of that task |
| Runs.Replies | process/syscall.c:85-151 | what each call but OPEN, CLOSE and READ returns, and that only SIGRETURN in a handler changes the frame |
| Runs.ContextKept | process/scheduler.c:85-101 | in every reachable state each task's saved registers are the context of its last preemption, or its initial one |
| Runs.ResumesWhereItRan | process/scheduler.c:99-138 | a switch returns to exactly that context, or to a handler pushed on it |
| Runs.KernelTicks | process/scheduler.c:82-83 | any number of consecutive ticks from ring 0 in a run leaves the whole state as it was |
| Runs.RunningTask | process/scheduler.c:90-97 | between registrations the running task advances by one per tick from ring 3, modulo the number of tasks |
| Runs.RoundRobin | process/scheduler.c:82-97 | among any n consecutive ticks from ring 3, other events in between, each of n tasks is switched to exactly once |
| Signals.SavedKept | process/scheduler.c:126-137 | from delivery to return, through any interleaving, the saved context is the preempted one |
| Signals.SignalRoundTrip | process/syscall.c:113-147 | the next SIGRETURN puts EAX, EBX, ECX, EDX and the five interrupt-return words of the preempted context in the frame |
| Signals.EnteredAsCalled | process/scheduler.c:129-136 | the handler finds a dummy return address at its stack pointer and the signal number above it, eight bytes below the preempted stack pointer |
| Signals.RestoredEntirely | arch/idt_asm.asm:158-166 | in any run, the task resumes after SIGRETURN with the five interrupt-return words of the preempted context, and with all of it if and only if EAX was 0 in it and the other general registers already agree |
| Signals.EaxLost | process/syscall.c:113-147 | a run of registration, SIGACTION, KILL, a tick and SIGRETURN in which the preempted context, with EAX 7, does not come back |
| Signals.NoSignalZero | process/scheduler.c:22-26 | signal 0 is pending in no reachable state |
| Signals.SearchFinds | process/scheduler.c:119-124 | so the search finds a signal exactly when one is pending |
| Signals.DeliveryIff | process/scheduler.c:119-124 | a signal is delivered if and only if no handler is running, it is the lowest pending one and has a handler |
| Signals.HandlersKept | process/scheduler.c:119-138 | in every reachable state each handler is the argument of the task's last SIGACTION for that signal, what it was at the start, or none for a task registered since |
| Signals.HandlersAlternate | process/scheduler.c:119-138 | over any stretch of any run deliveries and returns balance up to the running handler |
| Signals.SentInBetween | process/syscall.c:103-111 | two deliveries of a signal to a task are separated by a send of it to that task |
| Descriptors.OpenIff | process/syscall.c:40-56 | OPEN fails if and only if there is no free node, no such file or no free descriptor, and then leaves both used sets as they were; otherwise it opens the least free descriptor on a node that was free |
| Descriptors.OpenedNode | process/syscall.c:43-52 | a successful OPEN puts the descriptor at offset 0 of a node that was free and now stands for the inode found, and changes nothing else |
| Descriptors.CloseIff | process/syscall.c:58-68 | CLOSE fails if and only if the descriptor is out of range or unused, changing nothing; otherwise it returns 0, frees the descriptor and its node, and changes nothing else |
| Descriptors.ReadIff | process/syscall.c:70-83 | READ fails in the same cases; otherwise it returns the number of bytes delivered, which are the file's at the offset, advances the offset by it, and changes nothing else |
| Descriptors.SlashIgnored | fs/vfs.c:52-53 | a path with one leading slash opens what it opens without |
| Descriptors.AlwaysPaired | process/syscall.c:40-68 | in every reachable state used descriptors and used nodes correspond one to one, and 0 to 2 are never used |
| Descriptors.ReadsThrough | process/syscall.c:70-83 | through any interleaving an open descriptor reflects exactly its own reads |
| Descriptors.SequentialReads | process/syscall.c:70-83 | the reads of a fresh descriptor give the file's first bytes and the offset counts them; exactly unless a count passes 2^32 before the end of the file |
| Descriptors.OpenThenRead | process/syscall.c:40-83 | from an OPEN on, whatever comes in between, the reads of the descriptor it returned give the found file from its beginning, with the same exact condition |
| Syscalls.Dispatcher.Open | process/syscall.c:40-56 | refines the step function, with the search in the root directory |
| Syscalls.Dispatcher.Close | process/syscall.c:58-68 | refines the step function; a bad descriptor gives -1 and no change |
| Syscalls.Dispatcher.Read | process/syscall.c:70-83 | refines the step function for every count; the bytes delivered are those of the file at the descriptor's offset |
| Syscalls.Dispatcher.Sigaction | process/syscall.c:93-101 | sets one handler of the current task; -1 for a bad number or without a current task |
| Syscalls.Dispatcher.Kill | process/syscall.c:103-111 | sends to the current task; -1 for a bad number or without a current task |
| Syscalls.Dispatcher.Sigreturn | process/syscall.c:113-147 | writes the nine words and leaves the handler; -1 and no change when none is running or without a current task |
| Syscalls.Dispatcher.Handle | process/syscall.c:21-152 | state, frame, return value and delivered bytes are those of the step function for the decoded call; GETCHAR returns the oldest waiting character or 0, and LS prints the listing |
| Syscalls.Dispatcher.KeyboardInterrupt | drivers/keyboard.c:49-88 | one step of the keyboard protocol, and signal 2 for the current task exactly for scan code 0x2E while Ctrl is held |
| Syscalls.CallNumbers | process/syscall.h:7-17 | which call each number is, and which registers its arguments come from |
| Ext2.InodePosition | fs/ext2.c:91-96 | the computed block and offset are those of byte (i-1)*inode_size of the table for every inode if and only if the inode size divides the block size |
| Ext2.MisplacedInode | fs/ext2.c:93-96 | an inode size and an inode for which they are not |
| Ext2.InodeFetched | fs/ext2.c:91-105 | and then the bytes fetched are those of the table at that offset |
| Ext2.InodeRoundTrip | fs/ext2.h:35-54 | parsing the 128 bytes of an inode, laid out from its fields, gives back its size and its fifteen block pointers |
| Ext2.InodeStored | fs/ext2.c:91-105 | on a volume whose table holds the bytes of inode i in its place, the driver reads that inode |
| Ext2.BlockOnDisk | fs/ext2.c:29-36 | block b is the bytes of the partition from b times the block size on, while sector numbers fit in 32 bits |
| Ext2.ContentsAt | fs/ext2.c:203-212 | a file's contents block by block, with zeros for holes, up to its size or twelve blocks |
| Ext2.PreadIsSlice | fs/ext2.c:188-218 | the result is the slice of the file's contents if and only if offset + size does not pass 2^32 inside a file shorter than twelve blocks |
| Ext2.OverrunExample | fs/ext2.c:196-197 | a file of two bytes on a volume, and a read of it that delivers 12287 |
| Ext2.ReadsCompose | fs/ext2.c:188-218 | successive reads from offset 0 concatenate to a prefix of the file, of the length asked for or the file's, with the same exact condition |
| Ext2.ReadsOverrunExample | fs/ext2.c:196-197 | two reads of that file that deliver more than it has |
| Ext2.ScanInvertsLayout | fs/ext2.c:117-133 | following rec_len gives back the live records of a block tiled by any records |
| Ext2.LookupFirst | fs/ext2.c:146-167 | a lookup gives the first live record with exactly that name, or 0 if none has it |
| Ext2.DirectoryInverse | fs/ext2.c:109-134 | for a directory block tiled by records, listing and lookup see the live records in order, whatever is left in the buffer |
| Ext2.FoundIffNamed | fs/ext2.c:138-168 | on a block of any content a name is found if and only if some entry has it |
| Ext2.FoundIffListed | fs/ext2.c:109-168 | names found and names listed coincide if and only if the printed form of each entry with a zero byte is some entry's name |
| Ext2.PrintedStops | fs/ext2.c:125-129 | what is printed of a name ends at its first zero byte |
| Ext2.ListedNotFound | fs/ext2.c:109-168 | a directory on that volume with an entry that is listed as `a` and not found as `a` |
| Ext2.Driver.ReadBlock | fs/ext2.c:29-36 | the buffer begins with the block's bytes, LBA arithmetic wrapping, and keeps the rest |
| Ext2.Driver.ReadInode | fs/ext2.c:91-105 | the inode at the computed position |
| Ext2.Driver.Ls | fs/ext2.c:109-134 | prints the listing of the entries the scan meets, for any block content |
| Ext2.Driver.Matches | fs/ext2.c:151-162 | true if and only if the stored name and the C string are equal |
| Ext2.Driver.Find | fs/ext2.c:138-168 | the lookup among the entries the scan meets, for any block content |
| Ext2.Driver.Pread | fs/ext2.c:188-218 | for every offset and count, the buffer begins with exactly the bytes PreadIsSlice speaks of, the rest of it is untouched |
| Ext2.Driver.PreadRound | fs/ext2.c:204-214 | one block, from its starting byte, holes as zeros |
| Ext2.Driver.ReadFile | fs/ext2.c:220-247 | delivers what a positioned read at offset 0 delivers, by a different loop |
| Vfs.FileSystem.constructor | fs/vfs.c:25-30 | no node is used |
| Vfs.FileSystem.Open | fs/vfs.c:37-72 | first free node, one leading slash dropped, root directory searched; the node is filled only if the file is found |
| Vfs.FileSystem.Close | fs/vfs.c:74-77 | the node is unused, a null pointer is ignored |
| Vfs.FileSystem.Read | fs/vfs.c:79-83 | the bytes of the node's inode, or nothing for a null node or one without a read operation |
| Keyboard.EnqueueFifo | drivers/keyboard.c:78-83 | a character is dropped exactly when 63 are waiting, and accepting one overwrites none of them |
| Keyboard.ConsumeFifo | drivers/keyboard.c:13-20 | each step of the reader keeps the queue, and the test fails exactly when nothing is waiting |
| Keyboard.AlwaysFifo | drivers/keyboard.c:13-83 | under every interleaving of reader steps and interrupts what was returned is a prefix of what was accepted and the rest is in the buffer |
| Keyboard.ReadsOldest | drivers/keyboard.c:13-20 | the character returned is the oldest waiting one, however many arrive meanwhile |
| Keyboard.NothingLostIff | drivers/keyboard.c:78-83 | everything typed is accepted in order if and only if nothing is typed while 63 characters are waiting |
| Keyboard.CtrlIff | drivers/keyboard.c:57-58 | after any run Ctrl counts as held if and only if the last scan code among 0x1D and 0x9D was 0x1D, or there was none and it was held before |
| Keyboard.InterruptIff | drivers/keyboard.c:69-76 | after any run a scan code raises the interrupt if and only if it is that of the key c and Ctrl is held |
| Keyboard.TypedIsKeys | drivers/keyboard.c:61-83 | the characters a run types are those of the key map for each code that has one, in order, but for c while Ctrl is held |
| Keyboard.KeyC | drivers/keyboard.c:22-34 | exactly one scan code has the character c |
| Keyboard.DigitRow | drivers/keyboard.c:24-33 | the characters of the keyboard's digit row |
| Keyboard.TopRow | drivers/keyboard.c:24-33 | the characters of the keyboard's top letter row |
| Keyboard.HomeRow | drivers/keyboard.c:24-33 | the characters of the keyboard's home row |
| Keyboard.BottomRowLeft | drivers/keyboard.c:28-28 | the characters of the keyboard's bottom row, left half |
| Keyboard.BottomRowRight | drivers/keyboard.c:29-29 | and right half |
| Keyboard.KeypadTop | drivers/keyboard.c:31-32 | the characters of the number pad's upper rows |
| Keyboard.KeypadBottom | drivers/keyboard.c:32-33 | and lower rows |
| Keyboard.Keyboard.Handler | drivers/keyboard.c:49-88 | one producer step of the protocol; it reports the interrupt exactly for scan code 0x2E while Ctrl is held |
| Keyboard.Keyboard.Test | drivers/keyboard.c:16-16 | the reader's first step |
| Keyboard.Keyboard.Fetch | drivers/keyboard.c:17-17 | the reader's second step |
| Keyboard.Keyboard.Advance | drivers/keyboard.c:18-18 | the reader's third step |
| Keyboard.Keyboard.Getchar | drivers/keyboard.c:13-20 | with any interrupts between the steps, returns the oldest waiting character or 0 if there was none at the test |
| Readers.ReaderStep | drivers/keyboard.c:13-20 | each step of several tasks reading, with ticks and interrupts in between, is a step of one queue or none |
| Readers.AlwaysOneReader | process/scheduler.c:82-83 | in every run at most one task is past the test of kb_getchar, the running one, and the buffer is a queue throughout |
| Whole.SetUp | kernel/kernel.c:88-119 | init_paging, pmm_init and launch_tasks lead to a state with every task housed |
| Whole.Startup | kernel/kernel.c:88-121 | so does kmain with a program to start, and multitasking begins on the first task's directory and stack |
| Whole.StepSound | process/scheduler.c:85-105 | a step of the kernel, with any stores that spare the page tables, keeps every task housed |
| Whole.ExecSound | fs/elf.c:115-179 | a load houses the new task in a directory and a kernel stack that nothing was using, and leaves the others where they are |
| Whole.AlwaysSound | process/scheduler.c:99-105 | in every history each task has its own process directory, which maps the first 16 MB to themselves, and its own kernel stack frame; and so does the directory in CR3 |
| Whole.TranslationsKept | process/scheduler.c:99-105 | in every history, with loads, ticks, switches, calls and user stores in any order, every directory keeps all its translations and every frame in use its owner |
| Whole.ProgramsDisjoint | fs/elf.c:115-166 | two programs loaded in a history have different directories and at every later point share no frame of their own pages |
| Whole.ProgramCacheCoherent | mm/vmm.c:24-65 | with a loaded program's directory in CR3, at any later point of a history, vmm_map_page and vmm_unmap_page leave the cache coherent |

## Left out

- Elf.LoadProgram: requires enough free frames below 16 MB and segments inside the ELF buffer and above the kernel's pages; the C code does not check, and then writes to frame 0, reads outside its buffer or maps into the kernel's tables.
- ElfExec.Loader.Exec: `e_phoff` and `e_phentsize` that point outside the ELF buffer are excluded, as is a full task pool; the messages printed are not modelled.
- Vmm.MapPage: requires a free low frame for a missing table. A table it adds is not user-accessible, whatever the flags; the access rights of the map entry are those of both levels.
- Isolation.WalksPreserved: speaks of loads. User code can write every frame below 16 MB, because the identity mapping is user-accessible, so nothing is claimed about what user programs do to each other's tables.
- Whole.StepSound: user code and kernel are assumed not to store into page directories and page tables between loads, for the same reason.
- Syscalls.Dispatcher.Handle: SYS_EXIT never returns and is excluded, as are OPEN, CLOSE and READ without a current task, which dereference a null pointer; colours and PRINT output are not modelled; a call is one step, and interrupts and ticks inside kb_getchar are the subject of Keyboard and Readers.
- Syscalls.Dispatcher.KeyboardInterrupt: setting a pending bit is one atomic step; echo on the screen is not modelled.
- Ext2.Driver.ReadBlock: the disk never fails, and `ext2_init`, which fills in the volume's parameters, is not modelled.
- Ext2.DirectoryInverse: names are C strings and records tile the part of the first block that is scanned; directories beyond one block are not read by the C code.
- Vfs.FileSystem.Open: the 64-byte name field is its C string.
- Boot.LaunchTasks: copying the code of the built-in tasks is not modelled.
- Boot.SchedEnter: the general registers it leaves to the first task are not stated.
- Scheduler.TaskTable.constructor: the `active` field is written and never read, and is not modelled.
- drivers/ide.c, drivers/screen.c, arch/gdt.c, arch/idt.c, arch/tss.c, boot, lib/string.c, user programs: port I/O, display, constant tables and user code; the frame layouts of arch/idt_asm.asm are assumptions.
- Partition search of kernel/kernel.c and ext2_set_partition: the partition's first sector is a parameter of the volume.
