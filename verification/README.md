# TrieternalX-OS: the memory and process core

TrieternalX-OS is a small kernel for 32-bit x86. This project models the part of it that hands out memory and runs
programs, and proves what that part keeps and promises. Checking the whole project: `dafny verify dfyconfig.toml`.

The layers follow the kernel's own:

- `pmm.dfy` - the frame allocator: a packed bitmap and a counter.
- `paging.dfy`, `copies.dfy`, `image.dfy`, `vmm.dfy` - two-level page tables that live in physical memory, the flat
  page map they stand for, directories copied for user tasks, and the bytes that stores and loads by virtual address
  reach. `vmm.dfy` holds the operations; the other three hold what is proved about them.
- `heap_model.dfy`, `kheap.dfy` - the kernel heap: what kmalloc and kfree mean, and the linked headers that do it,
  growing page by page through the page tables.
- `elf.dfy`, `elf_file.dfy`, `elf_disk.dfy` - the program loader over frames, page tables and copy loops; ELF files
  written byte by byte and what the loader sees of them; and loading from disk, which puts the file reader, the heap and
  the loader together.
- `sched_model.dfy`, `scheduler.dfy`, `sched_heap.dfy` - the scheduler as a state machine over its steps, the linked
  task list with the heap blocks it owns, and those blocks as allocations of the kernel heap.
- `ipc.dfy` - message queues that share one pool of slots.
- `fat.dfy`, `fat_list.dfy`, `fat_volume.dfy` - names, geometry, directory search and file reading of a FAT volume; the
  listing of its root directory, and when a search and the listing agree; and volumes written byte by byte, mounted and
  read back.
- `fs.dfy` - the file tree in memory.
- `line.dfy` - line drawing on the framebuffer.
- `types.dfy` - bytes, little-endian numbers read and written, links of lists, counting.

Each object whose methods change its fields is a class. Its methods are proved against functions on values (`Malloc`,
`Timer`, `Sent`, `MapIn`, ...), and the theorems about whole runs are lemmas about those functions.

What the environment decides is a parameter: the sectors a disk can read, the addresses the scheduler's tasks and stacks
get (`sched_heap.dfy` takes them from the kernel heap), whether kmalloc serves the buffer of a file in the tree. Where the
code does not do what its callers expect on all inputs, one lemma gives the exact condition and another an input or a
state that fails it:

- `vmm_map_page` does not look at the result of its allocation. A failed one gives frame 0 as a table, which is
  harmless the first time and makes two directory entries share one table the second time (`Paging.MapInIsFlat`,
  `VirtualMemory.TwiceOutOfFrames`).
- The code writes page tables by their physical address, through the identity mapping of the first 128 MB, which
  vmm_map_page and vmm_unmap_page can be asked to take away. A run keeps it exactly when every step works above 128 MB or
  maps a page to itself (`Image.RunKeepsIdentityExactly`); such runs write all their tables (`Image.IdentityCarries`), and
  two calls after vmm_init that do not are in `VirtualMemory.TableOutOfReach`.
- Rounding in kmalloc wraps around for requests above 0xFFFFEFF0 (`HeapModel.RoundingHolds`,
  `HeapModel.RoundingWraps`).
- The page loop of the loader steps by pages from an address that need not be aligned, and then misses the last page
  of some segments (`Elf.ReachedMeansCovered`, `Elf.UnalignedSegmentIsMissed`).
- The loader cuts the copied part of a segment to its size in memory, but not the part to clear, whose length wraps when
  filesz is above memsz (`Elf.ClearingStaysInside`, `Elf.ClearingWraps`).
- A segment that shares a page with an earlier one replaces the page: what was loaded there before is zero or
  overwritten. A segment reads as the file says exactly when the last segment over each of its pages leaves the same
  bytes (`Elf.SegmentLoadedExactly`, `Elf.LaterSegmentReplaces`, `Elf.SharedPageExample`).
- A segment that covers a page the file itself lies in takes the file away from the loader: once its pages are there, the
  file is as it was exactly when it has only zeros in them (`Elf.InputLostExactly`, `Elf.FileUnderItself`).
- A page mapped above 0xC0000000 after a directory was copied has its requested rights in the copy only if the copied
  directory entry already granted them (`Copies.SharedRights`, `VirtualMemory.UserAccessIsNotShared`,
  `VirtualMemory.UserAccessExample`).
- process_kill protects process 1 but not the idle task. The task picked by an interrupt is one of the list exactly when
  the idle task is listed and not reaped by it or some task is ready at it (`SchedModel.PickIsListedExactly`); otherwise
  the scheduler picks a task it has deleted (`SchedModel.ReapedIdleIsPicked`).
- The file reader knows no 12-bit tables (`Fat.WidthIsSpecified`, `Fat.FloppyIsMisread`).
- Its search for a name ends exactly when a cluster of the root directory chain holds the name or ends the chain
  (`Fat.SearchEndsExactly`), and goes on for ever exactly when the chain closes on itself before that
  (`Fat.SearchNeverEndsExactly`, `Fat.LoopedSearchNeverEnds`).
- The searches go on behind the end mark of a directory, where the listing stops, and take pieces of long names for
  entries. Both agree on a name exactly when it is not there or found in front of the mark and no such piece
  (`FatListing.RootSearchAgreesWithListing`, `FatListing.FileBehindEndMarkOnVolume`). The listing of a chain ends exactly
  when a cluster holds an end mark or ends the chain (`FatListing.ListEndsExactly`, `FatListing.ListNeverEndsExactly`,
  `FatListing.LoopedListing`).
- Not every 8.3 name that is printed can be typed back (`Fat.NameRoundTrip`, `Fat.DirectoryNameRoundTrip`,
  `Fat.LowerCaseIsLost`).
- A path such as `a` or `//a` is filed under the root although it is not the root, a slash and a name
  (`FileTree.PathIsParentPlusName`). The names up the parent chain give back a path exactly when the paths on that chain
  are regular (`FileTree.ChainRebuildsPath`, `FileTree.BareNameIsNotRebuilt`).
- A line and the same line drawn from its other end differ at exact ties (`Line.DirectionMattersAtTies`,
  `Line.DirectionExample`).

The repository's README calls the program loader planned work; the code has it and is what is modelled.

The main results, one for each part: no frame is held twice over any run (`Frames.NoFrameIsHeldTwice`); the two-level
walk equals a flat map over any run that leaves the code its identity mapping, and an address then translates to the
frame last mapped and its own offset (`Paging.WalkEqualsFlatMap`, `Paging.AddressAfterRun`,
`Image.WalkAfterKeepingRun`); a copied directory translates alike, and after any such run of later mappings shows them
exactly where it should (`Copies.CopyTranslatesAlike`, `Copies.CopyAfterRun`); the heap invariant holds over any run,
kfree undoes kmalloc, the linked headers refine the block list, and growth takes the least number of pages and changes no
page the heap already has (`HeapModel.RunKeepsInv`, `HeapModel.FreeUndoesMalloc`, `HeapModel.GrowthInNumbers`,
`KernelHeap.Heap.Kmalloc`, `KernelHeap.Heap.Kfree`); the loader sees of a file what was written into it, never overwrites
it and puts each of its bytes at its address, and loading from disk changes no payload byte of any other allocation
(`ElfFile.WrittenIsReadBack`, `Elf.LoadFromMemory`, `ElfDisk.LoadBesideHeap`, `ElfDisk.LoadFromDisk`); a sleeper is
picked neither early nor late, counted in milliseconds (`SchedModel.SleepLastsItsTime`, `SchedModel.SleepEndsInTime`),
the timer interrupt leaks no block and frees none twice, and each block it frees is an allocation of the heap
(`Scheduling.Scheduler.TimerHandler`, `SchedHeap.InterruptMeetsKfree`); messages come out first in, first out, byte for
byte, and the linked queues over one pool of slots refine that (`Messages.FirstInFirstOut`, `Messages.Mailboxes.Send`,
`Messages.Mailboxes.Receive`, `Messages.Mailboxes.SendAndReceive`); a file on a volume given by its bytes is read as it
was written, exactly as far as its chain goes (`FatImage.MountAndRead`, `FatImage.MountAndRead32`,
`Fat.FatVolume.ReadFile`, `Fat.AvailableIsMinimum`), and the search for it ends exactly when its chain does not close on
itself (`Fat.SearchNeverEndsExactly`); the tree rebuilds its paths exactly where they are regular
(`FileTree.ChainRebuildsPath`); a line is the set of nearest pixels (`Line.Screen.DrawLine`, `Line.PathIsLine`).

## Model

| member | source | states |
|---|---|---|
| Frames.SetMask | src/kernel/pmm.cpp:8-11 | setting one bit of a byte leaves the other seven as they are |
| Frames.ClearMask | src/kernel/pmm.cpp:13-16 | clearing one bit of a byte leaves the other seven as they are |
| Frames.SettingABit | src/kernel/pmm.cpp:8-11 | in the packed bitmap, exactly one frame joins the frames in use |
| Frames.ClearingABit | src/kernel/pmm.cpp:13-16 | in the packed bitmap, exactly one frame leaves the frames in use |
| Frames.FirstClear | src/kernel/pmm.cpp:43-45 | the frame looked for is free and every lower one is in use; none is missed |
| Frames.FrameAllocator.constructor | src/kernel/pmm.cpp:23-39 | exactly frames 0 to 1023 are in use and the counter says so |
| Frames.FrameAllocator.TestBit | src/kernel/pmm.cpp:18-21 | the bit is set exactly for frames in use |
| Frames.FrameAllocator.Alloc | src/kernel/pmm.cpp:41-53 | the lowest free frame is taken and its address returned; null only when all are in use, and then nothing changes |
| Frames.FrameAllocator.Free | src/kernel/pmm.cpp:55-63 | exactly this frame becomes free; the counter stays the number of set bits |
| Frames.NoFrameIsHeldTwice | src/kernel/pmm.cpp:23-63 | over every run that frees only held frames: no frame is held twice, frames below 1024 are never handed out, and the frames in use are the reserved and the held ones |
| Frames.FullMeansNoneClear | src/kernel/pmm.cpp:41-53 | allocation fails exactly when no frame is left |
| Frames.FrameAllocator.SetBit | src/kernel/pmm.cpp:8-11 | exactly this frame joins those whose bit is set |
| Frames.FrameAllocator.ClearBit | src/kernel/pmm.cpp:13-16 | exactly this frame leaves those whose bit is set |
| Frames.FrameAllocator.ReserveLow | src/kernel/pmm.cpp:33-38 | exactly the frames below the limit are in use and counted |
| Frames.FrameAllocator.FindClear | src/kernel/pmm.cpp:43-51 | the scan ends at the lowest free frame, or at the end when there is none |
| Paging.EffectiveIsRequested | src/kernel/vmm.cpp:57-71 | the rights both levels grant together are exactly those last requested for the page |
| Paging.EnterKeepsTables | src/kernel/vmm.cpp:52-74 | distinct directory entries keep distinct tables, and tables stay within their entry's rights, exactly when the frame taken for a missing table is no table yet |
| Paging.EnterUpdatesFlat | src/kernel/vmm.cpp:52-74 | mapping a page changes the flat page map at that page and nowhere else, also when a new table is made |
| Paging.MapInIsFlat | src/kernel/vmm.cpp:52-74 | over the frame allocator: tables stay sound exactly when the allocation for a missing table succeeds or frame 0 serves no table yet, and then the flat map is updated |
| Paging.UnmapInIsFlat | src/kernel/vmm.cpp:76-87 | unmapping removes exactly that page from the flat map and keeps the tables sound |
| Paging.WalkEqualsFlatMap | src/kernel/vmm.cpp:52-110 | after any run of maps and unmaps whose table writes go where they are meant to, which runs that keep the identity mapping do, the two-level walk finds for each page what was last requested for it, or what it had at first |
| Paging.WalkByAddress | src/kernel/vmm.cpp:91-107 | the flat map is what the processor finds for an address: the upper ten bits choose the directory entry, the next ten the table entry |
| Paging.TranslateInNumbers | src/kernel/vmm.cpp:89-110 | a mapped address keeps its offset in the frame of its page; an unmapped one stands for itself below 0x8000000 and gives 0 from there |
| Paging.AddressAfterRun | src/kernel/vmm.cpp:52-110 | after any such run an address whose page was mapped last to a frame translates to that frame times 4096 plus its offset; one unmapped last to itself below 128 MB and to 0 above |
| Paging.DirectoryGrants | src/kernel/vmm.cpp:57-68 | after any such run a directory entry grants exactly the bits it granted before and those asked for with a page below it |
| Image.StepKeepsIdentityExactly | src/kernel/vmm.cpp:52-87 | a map or unmap keeps the first 128 MB mapped to themselves exactly when it works above them or maps a page to itself |
| Image.RunKeepsIdentityExactly | src/kernel/vmm.cpp:52-87 | the identity mapping is there throughout a run exactly when it is there at first and every step keeps it |
| Image.IdentityCarries | src/kernel/vmm.cpp:60-84 | throughout such a run every table the code writes is mapped at the physical address it is written by |
| Image.WalkAfterKeepingRun | src/kernel/vmm.cpp:52-110 | after such a run the walk finds for each page what was last requested for it |
| VirtualMemory.IdentityIsFlat | src/kernel/vmm.cpp:11-26 | the initial tables map each page of the first 128 MB to itself and nothing else |
| VirtualMemory.AddressSpace.constructor | src/kernel/vmm.cpp:11-26 | vmm_init leaves sound tables with that flat map |
| VirtualMemory.TwiceOutOfFrames | src/kernel/vmm.cpp:57-71 | after vmm_init and with no frame left, mapping one page above 3 GB keeps the tables sound and mapping a second one under another directory entry does not |
| VirtualMemory.TableOutOfReach | src/kernel/vmm.cpp:70-84 | after vmm_init, the page of the first identity table is unmapped and page 0 mapped: the second call cannot write its table |
| VirtualMemory.AddressSpace.ProvideTable | src/kernel/vmm.cpp:57-68 | an absent entry gets a cleared table in the next free frame, a present one more rights; nothing else changes |
| VirtualMemory.AddressSpace.AddTable | src/kernel/vmm.cpp:59-63 | a missing table: a cleared one in the next free frame, or in frame 0 when there is none; nothing else changes |
| VirtualMemory.AddressSpace.MapPage | src/kernel/vmm.cpp:52-74 | the flat map gets this page and the tables stay sound, exactly under the condition of MapInIsFlat |
| VirtualMemory.AddressSpace.UnmapPage | src/kernel/vmm.cpp:76-87 | the flat map loses this page and nothing else |
| VirtualMemory.AddressSpace.GetPhysAddr | src/kernel/vmm.cpp:89-110 | a mapped address gives the frame of the flat map and its own offset; an unmapped one itself below 0x8000000 and 0 from there |
| Copies.CopyTranslatesAlike | src/kernel/vmm.cpp:126-149 | a complete copy of the kernel directory translates every page as the kernel directory does, with the same rights |
| Copies.CopyAfterMap | src/kernel/vmm.cpp:52-74 | a later mapping below 0xC0000000 never changes a copy; above, it appears in the copy exactly when its table existed at copy time |
| Copies.LinkedSurvivesMap | src/kernel/vmm.cpp:52-74 | a copy stays apart from the kernel's own tables through later mappings |
| Copies.LinkedSurvivesUnmap | src/kernel/vmm.cpp:76-87 | so it does through later unmappings, which change no frame of the copy |
| Copies.CopyAfterRun | src/kernel/vmm.cpp:52-149 | after any such run of later maps and unmaps a copy shows from 3 GB up, under the tables that existed at copy time, what the kernel directory shows then, and everywhere else what it showed at first |
| Copies.CopyAfterRunByAddress | src/kernel/vmm.cpp:126-149 | the same by address: shared from 0xC0000000 up, the copy's own below |
| Copies.SharedRights | src/kernel/vmm.cpp:57-71 | a page shared with a copy has its requested rights there exactly when the copied entry already granted them |
| VirtualMemory.UserAccessIsNotShared | src/kernel/vmm.cpp:57-71 | a page mapped with flags 3, a directory copied, the page mapped again with flags 7: the kernel directory grants user access and the copy does not |
| VirtualMemory.SharedOnlyIsCopy | src/kernel/vmm.cpp:126-149 | the shared entries alone are a copy as the loop makes it when no frame is left for a table |
| VirtualMemory.UserAccessExample | src/kernel/vmm.cpp:57-71 | after vmm_init, with such a copy made between the two mappings, the rights of the second are missing in it |
| Copies.CopyStepProgress | src/kernel/vmm.cpp:128-148 | each round copies one entry into frames nobody held, or leaves it empty when no frame is left |
| Copies.CopyStepCopies | src/kernel/vmm.cpp:128-148 | after one round the entries copied so far are as they should be, in frames nobody held, and the kernel's own translations are as they were |
| VirtualMemory.AddressSpace.CopyKernelPages | src/kernel/vmm.cpp:126-149 | the loop keeps that account to its end; the kernel's own translations stay as they are |
| VirtualMemory.AddressSpace.CreateUserPageDir | src/kernel/vmm.cpp:112-124 | null exactly when no frame is left; otherwise a copy in new frames, complete exactly when there was a frame for the directory and each low table |
| VirtualMemory.AddressSpace.FillIdentityTable | src/kernel/vmm.cpp:15-19 | one table maps its 1024 pages to themselves; the rest of memory stays |
| VirtualMemory.AddressSpace.ClearTable | src/kernel/vmm.cpp:61-62 | one frame becomes an empty table; the rest of memory stays |
| VirtualMemory.AddressSpace.CopyEntry | src/kernel/vmm.cpp:130-147 | one round of the copy: shared from 3 GB up, a private copy of the table below, nothing when no frame is left |
| VirtualMemory.AddressSpace.CopyLowEntry | src/kernel/vmm.cpp:134-147 | a present entry below 3 GB gets a private copy of its table in a frame nobody held, or stays empty when no frame is left |
| VirtualMemory.AddressSpace.SetEntry | src/kernel/vmm.cpp:146-146 | one entry of the new directory is written; the rest of memory stays |
| VirtualMemory.AddressSpace.CopyTable | src/kernel/vmm.cpp:142-143 | one frame becomes a copy of another; the rest of memory stays |
| VirtualMemory.AddressSpace.StartDirectory | src/kernel/vmm.cpp:114-120 | a cleared frame nobody held, or null when none is left |
| VirtualMemory.AddressSpace.StoreByte | src/kernel/elf.cpp:115-124 | a store of a byte changes the byte of memory at the address it translates to and no other; translations stay |
| VirtualMemory.AddressSpace.LoadByte | src/kernel/elf.cpp:113-116 | a load gives the byte of memory at the address it translates to |
| Image.StoreInNumbers | src/kernel/vmm.cpp:89-110 | a store through the walk changes exactly the byte at the address vmm_get_phys_addr gives |
| Image.LoadInNumbers | src/kernel/vmm.cpp:89-110 | a load through the walk gives the byte at that address |
| Image.WordInBytes | src/kernel/vmm.cpp:15-22 | the four bytes of a word, lowest first, are its value; for an entry the frame times 4096 plus the flags |
| Image.PokeKeepsTables | src/kernel/elf.cpp:97-99 | a store to a mapped page that holds no table changes no translation |
| Image.FreshPageMaps | src/kernel/elf.cpp:92-104 | a page mapped to a frame just allocated: the flat map gets it, and no allocated frame is written or becomes a table |
| Image.FreshPageOwns | src/kernel/elf.cpp:92-104 | the new page has a frame that no other such page has and no table lies in |
| Image.HoldsNewPage | src/kernel/elf.cpp:92-104 | allocating, clearing and mapping a page adds a page of zeros to the image, writable and open to user code, and changes nothing else |
| Image.HoldsStore | src/kernel/elf.cpp:115-116 | a store through the page tables changes that byte of the image and nothing else |
| Elf.ReachedMeansCovered | src/kernel/elf.cpp:90-105 | the pages the loop maps hold every byte of the segment exactly when the last byte is within the counted pages of the first; page-aligned segments always qualify |
| Elf.UnalignedSegmentIsMissed | src/kernel/elf.cpp:90-105 | two bytes on either side of a page boundary: only the first page is mapped |
| Elf.ClearingStaysInside | src/kernel/elf.cpp:107-125 | the bytes cleared behind filesz end exactly at memsz when filesz is at most memsz, and lie outside the segment exactly when it is above |
| Elf.ClearingWraps | src/kernel/elf.cpp:119-124 | a segment with filesz 2 and memsz 1 has 2^32 - 1 bytes cleared |
| Elf.ElfValidate | src/kernel/elf.cpp:9-30 | decides, from the bytes in memory, whether the header is that of a little-endian 32-bit executable for the 386 |
| ElfFile.ValidExactly | src/kernel/elf.cpp:9-30 | a header is accepted exactly when its first six bytes are 7F 45 4C 46 01 01 and bytes 16 to 19 are 02 00 03 00 |
| ElfFile.FileHeaderReadBack | src/kernel/elf.cpp:43-51 | a file header laid out as in the ELF specification gives back entry point, table, entry size and count |
| ElfFile.ProgramHeaderReadBack | src/kernel/elf.cpp:58-65 | a program header laid out as in the ELF specification gives back its type, offset, address, sizes and flags |
| ElfFile.WrittenIsReadBack | src/kernel/elf.cpp:43-82 | of a file written with an entry point and a list of segments the loader sees exactly these, and loads exactly those of type 1 |
| ElfFile.InsideExactly | src/kernel/elf.cpp:58-60 | a program header is inside the file exactly when its 32 bytes are |
| Elf.ReadHeader | src/kernel/elf.cpp:58-65 | the program header fields read from memory are those of the file |
| Elf.InputStays | src/kernel/elf.cpp:107-125 | while segments are loaded the file in memory stays as it is, provided that no segment covers a page it lies in |
| Elf.InputReadsExactly | src/kernel/elf.cpp:90-125 | a byte of the file in memory reads as the file has it exactly when no page of the image lies over it or the image has the same byte there |
| Elf.InputLostExactly | src/kernel/elf.cpp:90-105 | after the page loop of the first segment that covers pages of the file, the file in memory is unchanged exactly when all its bytes in those pages are zero |
| Elf.FileUnderItself | src/kernel/elf.cpp:90-105 | a file at 0x08000000 with a segment for that page, whose first byte is not zero |
| Elf.ZeroedFrame | src/kernel/elf.cpp:93-99 | a frame nobody held, all zero; null only when none is left |
| Elf.MapSegment | src/kernel/elf.cpp:90-105 | the pages of the segment are zero afterwards, new or mapped before, and the others as they were; or no frame is left |
| Elf.CopySegment | src/kernel/elf.cpp:107-125 | every byte of the segment is stored: below filesz the byte of the file that lies as far behind the offset, read from the file in memory, and zero from there to memsz; other pages keep theirs |
| Elf.LoadedStep | src/kernel/elf.cpp:79-126 | after one more segment each page holds what the last segment that covers it leaves there |
| Elf.FindHull | src/kernel/elf.cpp:53-77 | reads the headers from memory; fails exactly when a header lies outside the file or no segment ends above where one starts; otherwise the exact hull of the segments |
| Elf.LoadSegments | src/kernel/elf.cpp:79-126 | each page of the segments holds what the last segment that covers it leaves there, or no frame is left; nothing outside the segments' pages changes |
| Elf.LoadFromMemory | src/kernel/elf.cpp:32-133 | after a success every page of a segment reads, through the page tables, as the last segment over it leaves it; a segment without a later one on its pages has at vaddr + k the byte of the file at offset + k, and zeros behind filesz; all bytes of all segments are writable and open to user code; the result is entry point and exact hull; the file in memory is not overwritten; a rejected file changes nothing; an acceptable one fails only when no frame is left |
| Elf.ByteIsLoaded | src/kernel/elf.cpp:107-125 | byte k of a loaded segment is the byte of the file at offset + k below filesz, and zero from there to memsz |
| Elf.LoadedImage | src/kernel/elf.cpp:107-125 | so every segment that no later one disturbs has the bytes of the file from its offset on, address by address, and zeros behind them |
| Elf.LoadedIsOpen | src/kernel/elf.cpp:101-104 | every byte of a segment has bits 0, 1 and 2 and no other right, both levels taken together |
| Elf.UndisturbedIsLoaded | src/kernel/elf.cpp:79-126 | a segment of whose pages no later one covers any reads as the file says |
| Elf.SegmentLoadedExactly | src/kernel/elf.cpp:79-126 | a segment reads as the file says exactly when for each of its bytes the last segment over the page leaves the same byte |
| Elf.LaterSegmentReplaces | src/kernel/elf.cpp:90-105 | where a later segment covers the page of a byte, the byte reads as the later segment's, or zero around it |
| Elf.SharedPageExample | src/kernel/elf.cpp:79-126 | a file the loader accepts, with two segments on one page, of which the first is lost |
| Elf.ClearFrame | src/kernel/elf.cpp:97-99 | every byte of the new frame is zero and nothing else changes |
| Elf.ProvidePage | src/kernel/elf.cpp:92-104 | one more page of zeros, with bits 0 to 2 as its rights, or no frame is left and nothing changes |
| Elf.StoreIn | src/kernel/elf.cpp:115-124 | one byte of the image changes |
| Elf.StoreNext | src/kernel/elf.cpp:115-124 | one more byte of the segment is in place |
| ElfDisk.MallocThenFree | src/kernel/elf.cpp:150-161 | giving back what kmalloc returned leaves the same allocations, and the same heap when it did not grow |
| ElfDisk.OwnsStays | src/kernel/elf.cpp:160-160 | pages outside the loaded segments keep frames of their own and the contents of those frames |
| ElfDisk.StoredByte | src/kernel/elf.cpp:154-154 | one more byte stored behind ptr: the bytes before it stay, and so do all other bytes of the heap |
| ElfDisk.StoreFile | src/kernel/elf.cpp:154-154 | the bytes read lie behind ptr, through the page tables, and no other byte of the heap has changed |
| ElfDisk.LiveAreHoused | src/kernel/kheap.cpp:15-113 | every payload byte of every allocation lies in a page of the heap with a frame of memory |
| ElfDisk.KeptPagesKeepPayloads | src/kernel/elf.cpp:150-160 | where the pages of the heap keep their contents, so do the payloads of all allocations |
| ElfDisk.StoreKeepsPayloads | src/kernel/elf.cpp:154-154 | storing the file behind the pointer changes no payload byte of another allocation |
| ElfDisk.LoadBesideHeap | src/kernel/elf.cpp:160-160 | loading from a heap block: every page of the heap keeps its frame and its contents, the file among them, and a success means a runnable image |
| ElfDisk.Borrow | src/kernel/elf.cpp:150-152 | the block is at least as large as asked, lies inside the heap and in no other allocation, giving it back restores the allocations, and the pages the heap had keep their contents; null only when region or frames have run out |
| ElfDisk.WholeFileIsRead | src/kernel/elf.cpp:146-154 | when the chain is as long as the directory says, the buffer can only hold the bytes of the file |
| ElfDisk.LoadFromDisk | src/kernel/elf.cpp:135-163 | on every path the heap stays sound with the same allocations as before, and every payload byte of each of them is as it was; after a success the block still holds the bytes the file system delivered and the image is that of these bytes, address by address; a failure has one of the listed causes |
| HeapModel.RoundingHolds | src/kernel/kheap.cpp:18-46 | the 32-bit rounding gives a size and pages that hold the request exactly for requests up to 0xFFFFEFF0 |
| HeapModel.RoundingWraps | src/kernel/kheap.cpp:18-46 | one byte above that limit the rounded request is large enough and asks for no page |
| HeapModel.BestIsSmallestFirst | src/kernel/kheap.cpp:51-61 | the scan picks the lowest-address block among the smallest free blocks that fit, and none only when none fits |
| HeapModel.PlaceKeepsLayout | src/kernel/kheap.cpp:63-83 | splitting keeps blocks ordered, disjoint, aligned and inside the heap |
| HeapModel.PlaceAddsOne | src/kernel/kheap.cpp:63-83 | using a block adds exactly one allocation, large enough and not a header and four bytes larger |
| HeapModel.ReleaseRemovesOne | src/kernel/kheap.cpp:115-141 | kfree removes exactly the allocation it is given, whatever it merges |
| HeapModel.ReleaseKeepsLayout | src/kernel/kheap.cpp:115-141 | merging keeps blocks ordered, disjoint and inside the heap, and the bytes they cover together |
| HeapModel.MallocKeepsInv | src/kernel/kheap.cpp:42-113 | kmalloc keeps the heap ordered and disjoint, with no two free neighbours, and sizes that add up to the mapped region less what failed growths left |
| HeapModel.ServedKeepsInv | src/kernel/kheap.cpp:63-83 | so does the branch that uses a block of the list |
| HeapModel.GrownKeepsInv | src/kernel/kheap.cpp:85-112 | so does the branch that grows the heap and uses the new block |
| HeapModel.FreeKeepsInv | src/kernel/kheap.cpp:115-141 | so does kfree |
| HeapModel.GrownFits | src/kernel/kheap.cpp:85-112 | after a growth the new block is the only one that fits |
| HeapModel.MallocGrown | src/kernel/kheap.cpp:85-112 | the second call is served from the list, so kmalloc calls itself at most once |
| HeapModel.MallocAllocates | src/kernel/kheap.cpp:42-113 | null exactly for size 0 or a growth that fails; otherwise one new aligned allocation that is large enough, the others in place |
| HeapModel.RoundsToWords | src/kernel/kheap.cpp:46-46 | a request is rounded up to the next multiple of four, and to no more |
| HeapModel.PagesAreLeast | src/kernel/kheap.cpp:18-20 | a growth takes the least number of pages that holds the block and its header of 16 bytes |
| HeapModel.GrowthInNumbers | src/kernel/kheap.cpp:42-112 | when no free block holds the request the end moves by 4096 for each page granted, and the request is met, 16 bytes behind the old end, exactly when these are the least number of pages that hold it with its header |
| HeapModel.ServiceInNumbers | src/kernel/kheap.cpp:51-83 | otherwise it gets the lowest of the smallest blocks that hold it, cut when 20 bytes or more are to spare, and the heap does not grow |
| HeapModel.PlaceInNumbers | src/kernel/kheap.cpp:63-83 | a block of 20 bytes more than the size or larger is cut in two with a header of 16 bytes between, a smaller one used whole |
| HeapModel.FirstMalloc | src/kernel/kheap.cpp:42-112 | the first request, of 5000 bytes, maps two pages, gets 0xC0000010 and leaves a block of 3160 bytes |
| HeapModel.ReleaseUndoesPlace | src/kernel/kheap.cpp:63-141 | freeing a block just used restores the block list, split or not |
| HeapModel.FreeUndoesMalloc | src/kernel/kheap.cpp:42-141 | when kmalloc needs no growth, kfree of its result restores the very same heap |
| HeapModel.NothingAllocated | src/kernel/kheap.cpp:115-141 | with nothing allocated there is at most one block, and it spans the heap unless growths failed |
| HeapModel.RunKeepsInv | src/kernel/kheap.cpp:9-141 | over every run on live pointers the invariant holds and callers hold exactly the blocks in use |
| HeapModel.HeldBlocksAreApart | src/kernel/kheap.cpp:42-141 | over every run on live pointers no two blocks callers hold overlap, headers included, and all lie inside the heap |
| HeapModel.LiveAreApart | src/kernel/kheap.cpp:42-141 | in a laid-out block list two blocks in use never overlap and lie inside the heap |
| HeapModel.AllFreedMeansOneBlock | src/kernel/kheap.cpp:9-141 | a run after which everything is freed leaves at most one block |
| KernelHeap.SplitChain | src/kernel/kheap.cpp:66-80 | the four header writes of a split keep next and prev inverse, with the new header in its place |
| KernelHeap.JoinChain | src/kernel/kheap.cpp:122-140 | the header writes of a merge keep next and prev inverse, with the second header gone |
| KernelHeap.SplitWrites | src/kernel/kheap.cpp:66-80 | no header written by a split lies in a payload in use |
| KernelHeap.MapFresh | src/kernel/kheap.cpp:29-35 | a heap page gets a frame of its own, or no frame is left; the pages there were keep their frames and contents |
| KernelHeap.KeptByMap | src/kernel/kheap.cpp:29-35 | mapping a new page, with a new table if need be, writes no frame of a page there was |
| KernelHeap.Heap.constructor | src/kernel/kheap.cpp:9-13 | an empty heap |
| KernelHeap.Heap.FindBest | src/kernel/kheap.cpp:48-61 | the walk finds the block of BestIsSmallestFirst |
| KernelHeap.Heap.UseBlock | src/kernel/kheap.cpp:63-83 | the header writes do what the block list says, outside every payload in use |
| KernelHeap.Heap.Grow | src/kernel/kheap.cpp:15-40 | exactly the least number of pages needed are mapped to frames of their own, writable and not open to user code, or fewer when the region or the frames run out, and those stay mapped; the pages there were keep their frames and contents |
| KernelHeap.Heap.Append | src/kernel/kheap.cpp:91-110 | the new pages become one free block at the end of the list |
| KernelHeap.Heap.Kmalloc | src/kernel/kheap.cpp:42-113 | refines Malloc, recursion included; the end stays when a free block holds the request and otherwise moves by 4096 for each page granted, of which a success takes the least number that hold the rounded request and 16 bytes; null for a nonzero size only when the region up to 0xD0000000 or the frames have run out; no header write falls inside a live payload, and the pages the heap had keep their frames and contents |
| KernelHeap.Heap.HeapRights | src/kernel/kheap.cpp:35-35 | every address of the heap is present and writable and not open to user code, both levels taken together |
| KernelHeap.Heap.Kfree | src/kernel/kheap.cpp:115-141 | refines Free, and no header write falls inside a live payload |
| KernelHeap.Heap.MergeNext | src/kernel/kheap.cpp:122-130 | merges with the next block exactly when that is free |
| KernelHeap.Heap.MergePrev | src/kernel/kheap.cpp:132-140 | merges into the previous block exactly when that is free |
| KernelHeap.Heap.JoinNext | src/kernel/kheap.cpp:124-129 | the header writes for merging with the next block are those of JoinChain |
| KernelHeap.Heap.JoinPrev | src/kernel/kheap.cpp:134-139 | so are those for merging into the previous block |
| KernelHeap.JoinFacts | src/kernel/kheap.cpp:122-140 | merging two neighbours writes no header but theirs and that of the block behind them |
| KernelHeap.ScanStep | src/kernel/kheap.cpp:53-60 | each step of the scan keeps the best block so far |
| KernelHeap.Heap.LastBlock | src/kernel/kheap.cpp:103-107 | the walk ends at the last block |
| KernelHeap.Heap.Extend | src/kernel/kheap.cpp:85-110 | the heap grown by exactly the pages needed, with one new block; or the same blocks, with the pages mapped so far accounted as lost; the pages there were keep their frames and contents |
| SchedModel.Search | src/kernel/scheduler.cpp:244-255 | the circular search stops at the first ready task and passes no ready one; it ends after one round |
| SchedModel.ReapedIsFilter | src/kernel/scheduler.cpp:288-333 | a timer interrupt keeps, in order, exactly the tasks that are not terminated or are current |
| SchedModel.PickApproaches | src/kernel/scheduler.cpp:240-263 | with any ready task in the list, a ready one is picked; it is that task or comes nearer to it |
| SchedModel.TimerKeepsInv | src/kernel/scheduler.cpp:265-364 | the interrupted task stays listed, the picked one is ready, ids and addresses stay distinct |
| SchedModel.ApplyKeepsInv | src/kernel/scheduler.cpp:92-421 | every step keeps the current task listed and the idle task ready, as long as the idle task neither sleeps, exits nor is killed |
| SchedModel.KillKeepsInvExactly | src/kernel/scheduler.cpp:405-421 | a kill keeps that invariant exactly when its id is 1 or not that of the idle task |
| SchedModel.StaysExactly | src/kernel/scheduler.cpp:288-333 | a task is listed after an interrupt exactly when it was listed and is not terminated, or is current |
| SchedModel.WakesExactly | src/kernel/scheduler.cpp:271-333 | some task is ready after the countdown exactly when one is not terminated and asleep for no more than one tick |
| SchedModel.PickListed | src/kernel/scheduler.cpp:240-263 | the pick is listed exactly when the idle task is or some task is ready |
| SchedModel.PickIsListedExactly | src/kernel/scheduler.cpp:240-364 | after an interrupt the current task is one of the list exactly when the scheduler is off, the idle task is listed and not reaped by it, or some task is ready at it |
| SchedModel.ReapedIdleIsPicked | src/kernel/scheduler.cpp:240-364 | idle task killed, process 1 asleep, one interrupt: the current task is then one that is no longer in the list |
| SchedModel.TimerApproaches | src/kernel/scheduler.cpp:265-364 | an interrupt picks a waiting task or brings it nearer, and counts down a sleeper without picking it early |
| SchedModel.OthersDoNotDelay | src/kernel/scheduler.cpp:92-421 | what other tasks do in between brings a waiting task no further away, except by one place per new task |
| SchedModel.BoundedWaiting | src/kernel/scheduler.cpp:205-364 | no run passes over a waiting task for as many interrupts as its bound, plus one per task created |
| SchedModel.SleeperIsPickedInTime | src/kernel/scheduler.cpp:205-219 | asleep for k ticks among n tasks, a task is current again after at most k + n - 1 interrupts, whatever the others do |
| SchedModel.SleeperIsNotPickedEarly | src/kernel/scheduler.cpp:205-286 | while fewer interrupts than its ticks have come, a sleeper sleeps on and is not picked |
| SchedModel.SleepLastsItsTime | src/kernel/scheduler.cpp:205-286 | after scheduler_sleep(ms) the task is not picked while fewer than max(1, ms / 10) interrupts have come, whatever the others do |
| SchedModel.SleepEndsInTime | src/kernel/scheduler.cpp:205-364 | and no run of the others passes over it for max(1, ms / 10) + n - 1 interrupts, plus one per task created, n being the number of tasks |
| SchedModel.SleepPuts | src/kernel/scheduler.cpp:205-215 | exactly the current task is changed: asleep for max(1, ms / 10) ticks |
| SchedModel.ExitTerminates | src/kernel/scheduler.cpp:221-228 | exactly the current task is changed: terminated |
| SchedModel.KillTerminates | src/kernel/scheduler.cpp:405-421 | exactly the task of this id is changed, unless the id is 1: terminated |
| SchedModel.CreateAppends | src/kernel/scheduler.cpp:92-197 | a new task is ready and the last of the list; the others stay |
| Scheduling.Scheduler.constructor | src/kernel/scheduler.cpp:56-84 | two tasks, the first current, and exactly their blocks held |
| Scheduling.Scheduler.CreateTask | src/kernel/scheduler.cpp:92-197 | the task goes last in the list and its blocks, and only those, are held in addition |
| Scheduling.Scheduler.Sleep | src/kernel/scheduler.cpp:205-215 | the current task sleeps for max(1, ms / 10) ticks; the list and the blocks stay as they are |
| Scheduling.Scheduler.ExitTask | src/kernel/scheduler.cpp:221-228 | the current task is marked terminated and nothing else changes |
| Scheduling.Scheduler.ProcessExit | src/kernel/scheduler.cpp:373-382 | the same with an exit code, except for process 1 |
| Scheduling.Scheduler.Kill | src/kernel/scheduler.cpp:405-421 | the task with this id, unless it is process 1, is marked terminated with exit code -1 and nothing else changes; the state stays valid exactly when that is not the idle task |
| Scheduling.Scheduler.TickSleepers | src/kernel/scheduler.cpp:271-286 | every sleeper counts down once and wakes at zero |
| Scheduling.Scheduler.Reap | src/kernel/scheduler.cpp:288-333 | the list becomes the filter of ReapedIsFilter with head, tail and links consistent, and each listed task's blocks are exactly those still held |
| Scheduling.Scheduler.Unlink | src/kernel/scheduler.cpp:295-328 | one task leaves the list and its blocks are given back, each once |
| Scheduling.Scheduler.GetNextTask | src/kernel/scheduler.cpp:240-263 | the linked walk finds the task of Pick and ends |
| Scheduling.Scheduler.TimerHandler | src/kernel/scheduler.cpp:265-364 | one step of Timer; the interrupted task's stack is saved and not freed; blocks in use are exactly those of listed tasks |
| Scheduling.Scheduler.Start | src/kernel/scheduler.cpp:86-90 | only the active flag changes |
| Scheduling.Scheduler.LinkIn | src/kernel/scheduler.cpp:184-193 | the task is linked behind the tail, or becomes head and tail |
| Scheduling.Scheduler.TickTask | src/kernel/scheduler.cpp:274-284 | one sleeper counts down and wakes at zero |
| Scheduling.Scheduler.TickAndReap | src/kernel/scheduler.cpp:271-333 | the tasks that stay, in order and ticked, with their stacks and stack pointers as they were |
| Scheduling.Scheduler.FreeStacks | src/kernel/scheduler.cpp:295-304 | both stacks are given back once and forgotten |
| Scheduling.Scheduler.SwitchTask | src/kernel/scheduler.cpp:337-361 | the interrupted task's stack pointer is saved and that of the picked task returned |
| SchedHeap.HeldAfterMalloc | src/kernel/scheduler.cpp:96-167 | what kmalloc returns is a block the scheduler does not hold yet, and those it holds stay allocated |
| SchedHeap.HeldAfterFree | src/kernel/scheduler.cpp:295-329 | a block the scheduler holds is one kfree may be called with; the others stay allocated |
| SchedHeap.HeldAreFreeable | src/kernel/scheduler.cpp:290-333 | any blocks the scheduler holds can be freed one after the other, each once, and the heap invariant holds after each |
| SchedHeap.InterruptOnlyGivesBack | src/kernel/scheduler.cpp:288-333 | the tasks an interrupt leaves hold exactly what they held before |
| SchedHeap.InterruptMeetsKfree | src/kernel/scheduler.cpp:288-333 | every block an interrupt gives back is an allocation at that moment, and what the scheduler still holds is allocated afterwards |
| SchedHeap.Obtain | src/kernel/scheduler.cpp:167-167 | a new allocation beside the blocks held, or null; the blocks held stay allocated |
| SchedHeap.Enlist | src/kernel/scheduler.cpp:97-193 | with the new task in the list the blocks held are still allocations, and the heap is not touched |
| SchedHeap.Spawn | src/kernel/scheduler.cpp:92-197 | a kernel task with a task block and, unless kmalloc failed, a stack of at least 4096 bytes from the heap: one step Create, and all blocks held are allocations |
| Messages.FirstInFirstOut | src/kernel/ipc.cpp:60-187 | over every run: delivered messages followed by queued ones are those queued at first followed by those accepted, per process, in order and unchanged |
| Messages.SentInPlain | src/kernel/ipc.cpp:60-94 | with fewer than 64 messages queued and a mailbox for the receiver, the first min(length, 256) bytes go last in its queue; otherwise nothing changes |
| Messages.ReceivedInPlain | src/kernel/ipc.cpp:155-187 | the first message leaves the queue of its receiver; nothing else changes |
| Messages.OpenedInPlain | src/kernel/ipc.cpp:132-148 | with fewer than 16 mailboxes in use a process gets an empty queue or keeps the one it has |
| Messages.OpenedRep | src/kernel/ipc.cpp:132-148 | a new mailbox of a process that has one takes nothing over from it |
| Messages.EnqueueQueue | src/kernel/ipc.cpp:81-87 | linking behind the tail makes the slot the last of its queue, and the count follows |
| Messages.DequeueQueue | src/kernel/ipc.cpp:163-167 | unlinking the head leaves the rest of the queue, its tail and its count right |
| Messages.EnqueuedPlaces | src/kernel/ipc.cpp:65-88 | every used slot stays in exactly one queue at one place, one more than before |
| Messages.DequeuedPlaces | src/kernel/ipc.cpp:163-181 | the same when a slot is taken out and freed, one fewer than before |
| Messages.Enqueued | src/kernel/ipc.cpp:77-88 | the new representation means the message was sent to the owner of that mailbox and to nobody else |
| Messages.Dequeued | src/kernel/ipc.cpp:161-182 | the new representation means the owner's first message was received |
| Messages.Unqueued | src/kernel/ipc.cpp:92-93 | giving an unqueued slot back changes no queue |
| Messages.Mailboxes.constructor | src/kernel/ipc.cpp:20-35 | no mailbox, no message |
| Messages.Mailboxes.AllocMessage | src/kernel/ipc.cpp:37-49 | an unused slot, or none exactly when all 64 are queued |
| Messages.Mailboxes.Send | src/kernel/ipc.cpp:60-94 | refines one queue per process: the payload, cut to 256 bytes, goes last; fails exactly when all slots are in use or the receiver has no mailbox, and then queues and used slots are as before |
| Messages.Mailboxes.Receive | src/kernel/ipc.cpp:155-187 | the oldest message of the process leaves its queue; the buffer gets as much of it as fits and the rest of the buffer stays; -1 exactly when nothing is queued |
| Messages.Mailboxes.SendAndReceive | src/kernel/ipc.cpp:60-187 | a message sent to a process with an empty queue and received by it: the sender, the length cut to 256, and its bytes as far as the buffer goes; afterwards all queues are as before |
| Messages.Mailboxes.CreateMailbox | src/kernel/ipc.cpp:132-148 | the process has a queue, the messages it had are still there; fails exactly when all 16 are in use |
| Messages.OneMailboxHoldsMail | src/kernel/ipc.cpp:77-88 | of the mailboxes of a process only the lowest is ever not empty |
| Messages.Mailboxes.FreeMessage | src/kernel/ipc.cpp:51-58 | the slot is unused and unlinked; null changes nothing |
| Messages.Mailboxes.Fill | src/kernel/ipc.cpp:69-75 | the slot holds sender and payload; the other slots stay |
| Messages.Mailboxes.LinkLast | src/kernel/ipc.cpp:81-87 | the slot is linked behind the tail of this mailbox and counted; no other slot or mailbox changes |
| Messages.Mailboxes.Deliver | src/kernel/ipc.cpp:79-89 | the message is sent to the owner of the mailbox |
| Messages.Mailboxes.CopyOut | src/kernel/ipc.cpp:172-178 | as much of the payload as fits; the rest of the buffer stays |
| Messages.Mailboxes.UnlinkFirst | src/kernel/ipc.cpp:163-167 | the head slot is taken out and the count follows; no other mailbox changes |
| Messages.Mailboxes.TakeFirst | src/kernel/ipc.cpp:161-183 | the owner's oldest message is received and copied out |
| Fat.ToFatName | src/kernel/fat.cpp:87-114 | the loops fill the padded, upper-case fields of base and extension |
| Fat.CaseDoesNotMatter | src/kernel/fat.cpp:94-112 | texts that differ only in case give the same name |
| Fat.NameInBytes | src/kernel/fat.cpp:87-114 | up to eight characters before the first dot and up to three behind it, in capitals and padded with spaces, place by place |
| Fat.UpperInBytes | src/kernel/fat.cpp:97-99 | a to z become A to Z and every other byte stays |
| Fat.PrintName | src/kernel/fat.cpp:235-245 | the loop prints the characters of both fields without spaces, with a dot between them for files |
| Fat.PrintedInBytes | src/kernel/fat.cpp:235-245 | two padded fields without spaces inside are shown with a dot between them, which a directory does not get |
| Fat.NameRoundTrip | src/kernel/fat.cpp:87-245 | the printed name of a file gives back the eleven bytes exactly when the base has no dot, spaces are only padding and there is no lower case (section 6.1 of the Microsoft FAT Specification) |
| Fat.DirectoryNameRoundTrip | src/kernel/fat.cpp:87-245 | the printed name of a directory gives back the eleven bytes exactly when in addition it has no extension |
| Fat.LowerCaseIsLost | src/kernel/fat.cpp:94-112 | a name in lower case does not come back |
| Fat.WidthIsSpecified | src/kernel/fat.cpp:157-168 | the entry width is that of section 3.5 of the Microsoft FAT Specification exactly for volumes of at least 4085 clusters |
| Fat.FloppyIsMisread | src/kernel/fat.cpp:157-168 | a floppy of 2847 clusters, which the specification gives 12 bits, is read with 16 |
| Fat.MountedBounds | src/kernel/fat.cpp:141-168 | on a well-formed volume the 32-bit sums do not wrap; the data starts behind the tables and the fixed root directory and fits into the volume |
| Fat.ClustersAreApart | src/kernel/fat.cpp:178-181 | different clusters share no sector and lie between the start of the data and the end of the volume |
| Fat.EntriesAreInFirstTable | src/kernel/fat.cpp:183-204 | the table entry of every cluster lies inside the first table, in one sector, at its own place (section 4.1 of the Microsoft FAT Specification) |
| Fat.FindIsIndependent | src/kernel/fat.cpp:345-372 | what a search that ends finds does not depend on how far it may go |
| Fat.SearchEndsExactly | src/kernel/fat.cpp:347-371 | the search ends exactly when some cluster of the chain ends it or holds the name |
| Fat.SearchNeverEndsExactly | src/kernel/fat.cpp:347-371 | the search never ends exactly when the chain comes back to one of its clusters and none before that ends the chain or holds the name |
| Fat.LoopedSearchNeverEnds | src/kernel/fat.cpp:347-371 | a well-formed volume whose root directory cluster is linked to itself, on which no search for any name ends |
| Fat.AvailableIsMinimum | src/kernel/fat.cpp:384-418 | a chain of n clusters delivers the smaller of what is wanted and n clusters of bytes |
| Fat.EndlessChainHasAll | src/kernel/fat.cpp:384-418 | a chain that never ends delivers all that is wanted |
| Fat.SectorOfFile | src/kernel/fat.cpp:396-402 | sector s of the k-th cluster of a chain is the file's sector number k * sectors per cluster + s |
| Fat.FatVolume.Init | src/kernel/fat.cpp:125-171 | active exactly when sector 0 can be read and is signed, and then the geometry of that sector; otherwise nothing but the flag changes |
| Fat.FatVolume.ScanSector | src/kernel/fat.cpp:330-341 | the first entry of the name in front of the end mark, deleted ones left out |
| Fat.FatVolume.FindFixed | src/kernel/fat.cpp:323-344 | the first entry of the name in the sectors of the root directory up to the first unreadable one |
| Fat.FatVolume.FindInChain | src/kernel/fat.cpp:347-371 | the first entry of the name along the chain of the root directory |
| Fat.FatVolume.GetFileSize | src/kernel/fat.cpp:423-486 | the size in the very entry that ReadFile reads from, or 0 |
| Fat.FatVolume.ReadCluster | src/kernel/fat.cpp:398-415 | one more cluster's bytes, or as many as are still wanted; stops at an unreadable sector |
| Fat.FatVolume.ReadData | src/kernel/fat.cpp:376-420 | ends on every chain; true exactly when all sectors that hold wanted bytes can be read, and then the buffer holds exactly those bytes of the chain and is otherwise untouched |
| Fat.FatVolume.ReadFile | src/kernel/fat.cpp:312-421 | true delivers the first min(max_size, file_size, chain) bytes and nothing beyond; false for an inactive volume or a missing name changes nothing, and otherwise there is an unreadable sector right behind what was delivered (MountAndRead and MountAndRead32 say which bytes of the disk these are) |
| Fat.FillExtension | src/kernel/fat.cpp:102-113 | the second field is what follows the dot, padded; the first stays |
| Fat.FatVolume.FindInCluster | src/kernel/fat.cpp:350-369 | the first entry of the name in one cluster, up to an unreadable sector |
| Fat.FatVolume.FindEntry | src/kernel/fat.cpp:323-374 | the first entry of the name in the root directory of either kind |
| Fat.FatVolume.CopySector | src/kernel/fat.cpp:410-413 | the bytes of the sector at their place; the rest of the buffer stays |
| FatImage.LayoutIsReadBack | src/kernel/fat.cpp:125-163 | a boot sector laid out byte by byte as in section 3 of the Microsoft FAT Specification, with 16-bit or 32-bit tables, gives back the layout that was written |
| FatImage.MountedIsSpecified | src/kernel/fat.cpp:141-168 | what is computed from it are the places of section 3.5 of the Microsoft FAT Specification: root directory, clusters and the width of table entries |
| FatImage.ClusterIsSpecified | src/kernel/fat.cpp:178-181 | cluster c begins (c - 2) * sectors per cluster behind the start of the data |
| FatImage.RecordIsReadBack | src/kernel/fat.cpp:328-376 | a directory entry laid out as in section 6 of the Microsoft FAT Specification, in any place of a sector, is read as it was written, both halves of its first cluster included |
| FatImage.RecordIsListed | src/kernel/fat.cpp:228-258 | and listed with its name, whether it is a directory, and its size |
| FatImage.HeldIsFound | src/kernel/fat.cpp:330-341 | it is found by its name when neither the name nor an end mark comes before it |
| FatImage.NextIsReadBack | src/kernel/fat.cpp:183-204 | a table entry of 2 or 4 bytes written for a cluster, as in section 4.1 of the Microsoft FAT Specification, is the next cluster |
| FatImage.ChainIsReadBack | src/kernel/fat.cpp:183-204 | a chain written into the table is followed cluster by cluster to its end and no further |
| FatImage.ByteIsReadBack | src/kernel/fat.cpp:384-418 | byte p of the contents, in its place in cluster number p / cluster size of the chain, is byte p of the file |
| FatImage.MountAndRead | src/kernel/fat.cpp:125-421 | on any disk whose bytes are a well-formed volume with 16-bit tables and a file, mounting it and reading the file by name delivers the first min(max_size, size) bytes of its contents and nothing beyond |
| FatImage.FileIsFoundAlong | src/kernel/fat.cpp:347-371 | a file in any cluster of a root directory that is a chain is found, and the search ends |
| FatImage.MountAndRead32 | src/kernel/fat.cpp:125-421 | the same for a volume with 32-bit tables, whose root directory is a chain |
| FatListing.SearchedSplits | src/kernel/fat.cpp:323-371 | what the searches go through is what lies in front of the first end mark and what lies in the sectors behind it |
| FatListing.SearchAgreesWithListing | src/kernel/fat.cpp:206-371 | a search and the listing agree on a name exactly when the search finds nothing, or finds it in front of the first end mark and not as a piece of a long name |
| FatListing.RootSearchAgreesWithListing | src/kernel/fat.cpp:206-371 | the same for the root directory of either kind |
| FatListing.FileBehindEndMark | src/kernel/fat.cpp:228-341 | a file in the sector behind the end mark is found and not listed |
| FatListing.FileBehindEndMarkOnVolume | src/kernel/fat.cpp:206-344 | the same on a well-formed volume with a root directory of two sectors |
| FatListing.ListSector | src/kernel/fat.cpp:226-259 | the lines of one sector up to its end mark: deleted entries and pieces of long names left out |
| FatListing.AttributeBits | src/kernel/fat.cpp:233-249 | all four low bits mark a piece of a long name, bit 4 a directory |
| FatListing.ListFixed | src/kernel/fat.cpp:221-261 | the lines of a fixed root directory up to the first end mark or unreadable sector |
| FatListing.ListCluster | src/kernel/fat.cpp:269-303 | the lines of one cluster, and whether it holds an end mark |
| FatListing.ListChain | src/kernel/fat.cpp:265-306 | the lines along the chain of the root directory up to the first end mark |
| FatListing.ListEndsExactly | src/kernel/fat.cpp:265-306 | the listing ends exactly when some cluster of the chain ends it or holds an end mark |
| FatListing.ListNeverEndsExactly | src/kernel/fat.cpp:265-306 | the listing never ends exactly when the chain comes back to one of its clusters and none before that ends the chain or holds an end mark |
| FatListing.LoopedListing | src/kernel/fat.cpp:265-306 | on the looped volume of the searches the listing ends; with deleted entries in its directory it does not |
| FileTree.LastSlash | src/kernel/fs.cpp:236-242 | the last slash, or none |
| FileTree.Find | src/kernel/fs.cpp:45-53 | the lowest entry with this path, or none |
| FileTree.ApplyKeeps | src/kernel/fs.cpp:197-320 | every operation keeps the tree well formed: root first, each entry under the entry that had its directory's path when it was made |
| FileTree.RunKeeps | src/kernel/fs.cpp:197-320 | over every run entries keep index, name, path and parent, and a path that leads somewhere leads there for ever |
| FileTree.ContentOverRuns | src/kernel/fs.cpp:197-228 | a file holds everything written to it, in order, whatever else happens |
| FileTree.ParentIsEarlier | src/kernel/fs.cpp:246-268 | parents come before their children |
| FileTree.PathIsParentPlusName | src/kernel/fs.cpp:236-261 | an entry's path is its parent's path, a slash and its name exactly for paths with a slash whose directory part is not "/" |
| FileTree.ChainRebuildsPath | src/kernel/fs.cpp:236-268 | joining the names up the parent chain gives back the path exactly when every path on that chain is regular |
| FileTree.BareNameIsNotRebuilt | src/kernel/fs.cpp:236-261 | a directory made as "a" in a tree with only the root is filed under the root, and its names give "/a" |
| FileTree.Children | src/kernel/fs.cpp:342-370 | exactly the entries with this parent, in strictly falling order |
| FileTree.LinkedMore | src/kernel/fs.cpp:263-272 | putting a new node in front of its siblings keeps all child lists right |
| FileTree.FileSystem.constructor | src/kernel/fs.cpp:80-85 | only the root |
| FileTree.FileSystem.FindNode | src/kernel/fs.cpp:45-53 | the entry of Find |
| FileTree.FileSystem.AllocNode | src/kernel/fs.cpp:68-76 | the used nodes are 0 to count - 1 and the next one is taken |
| FileTree.FileSystem.Make | src/kernel/fs.cpp:230-320 | one entry is added under the parent that its path names; nothing changes when all 64 are in use |
| FileTree.MadeInPlain | src/kernel/fs.cpp:230-320 | for a path of a directory, a slash and a name: one more entry of that name under the lowest entry of that directory's path, or under the root when nothing stands before the slash; none beyond 64 |
| FileTree.FileSystem.Open | src/kernel/fs.cpp:160-169 | the lowest file of this path; -1 for none and -2 for a directory |
| FileTree.FileSystem.Read | src/kernel/fs.cpp:177-195 | the first bytes of the contents, as many as there are and fit, and the rest of the buffer untouched |
| FileTree.FileSystem.Write | src/kernel/fs.cpp:197-228 | the bytes are appended; -1 and no change for a bad index, a directory or no memory |
| FileTree.WrittenInPlain | src/kernel/fs.cpp:197-228 | exactly the contents of that file change, by the bytes behind them; nothing changes for a bad index, a directory or no memory |
| FileTree.FileSystem.WriteAndRead | src/kernel/fs.cpp:177-228 | what is written to a file is read back from it, behind what it held |
| FileTree.FileSystem.List | src/kernel/fs.cpp:327-371 | the sibling walk ends and shows exactly the children, latest first |
| FileTree.FindIsStable | src/kernel/fs.cpp:45-53 | no operation changes what a path leads to |
| FileTree.FileSystem.FindLastSlash | src/kernel/fs.cpp:236-242 | the loop finds the last slash, or none |
| FileTree.FileSystem.AddNode | src/kernel/fs.cpp:263-273 | one entry under the given parent, with all child lists right |
| FileTree.FileSystem.WriteNode | src/kernel/fs.cpp:263-273 | the new node in front of its siblings, the parent pointing to it, and no other node changed |
| FileTree.FileSystem.Joined | src/kernel/fs.cpp:209-223 | a new buffer with the old contents and the new bytes behind them |
| FileTree.FileSystem.SetData | src/kernel/fs.cpp:225-226 | the file holds the new contents; no link and no other file changes |
| FileTree.FileSystem.CopyInto | src/kernel/fs.cpp:190-192 | the first bytes are copied; the rest of the buffer stays |
| Line.Near | src/drivers/vbe.cpp:204-230 | for every step along the longer axis there is one and only one offset within half a pixel, ties to the smaller |
| Line.NextStep | src/drivers/vbe.cpp:218-228 | the error term takes the x and y steps that keep the point in that band, and twice its value fits 32 bits |
| Line.ReachedEnd | src/drivers/vbe.cpp:217-217 | the loop meets the second endpoint exactly after max(dx, dy) steps |
| Line.PathIsLine | src/drivers/vbe.cpp:204-230 | the points visited are exactly the pixels within half a pixel of the ideal line, one per coordinate of the longer axis |
| Line.OnLineByDistance | src/drivers/vbe.cpp:204-230 | by the cross product: pixels of the line lie between the endpoints with 2 * |cross| at most the longer extent, and all with less are on it |
| Line.PathIsConnected | src/drivers/vbe.cpp:204-230 | from the first endpoint to the second in single straight or diagonal steps |
| Line.DirectionMattersAtTies | src/drivers/vbe.cpp:204-230 | drawn from the other end a pixel stays on the line exactly when it is not half a pixel off |
| Line.DirectionExample | src/drivers/vbe.cpp:204-230 | from (0, 0) to (2, 1) the pixel (1, 0) is on the line; from (2, 1) to (0, 0) it is not |
| Line.Screen.IndexIsOneToOne | src/drivers/vbe.cpp:170-171 | different visible pixels lie at different places |
| Line.Screen.PixelAddress | src/drivers/vbe.cpp:170-171 | in bytes, a row is one pitch further on and a column four bytes |
| Line.Screen.PutPixel | src/drivers/vbe.cpp:165-172 | a visible pixel gets the colour; nothing else changes |
| Line.Screen.DrawLine | src/drivers/vbe.cpp:204-230 | ends at the second endpoint in every octant; exactly the visible pixels of the line get the colour |
| Line.NextNear | src/drivers/vbe.cpp:218-228 | one more step along the longer axis stays in the band with at most one step along the shorter one |
| Line.Screen.Visit | src/drivers/vbe.cpp:216-216 | one more visible point has the colour |

## Left out

- Port I/O, interrupt controllers, timers, PCI, the ATA handshake, keyboard, mouse and speaker: hardware effects only. A
  disk is the map of sectors that can be read.
- Inline assembly: CR3 and TLB instructions, context frames on stacks, GDT, IDT, and the `.asm` files.
- GUI, shell, logger, text console, fonts; system calls and service wrappers, which only dispatch.
- Frames.FrameAllocator.constructor: for memory up to 128 MB, which is what the bitmap has bits for; the code takes any
  size, and its allocations then scan behind the bitmap.
- Frames.FrameAllocator.Free: for addresses below 128 MB; the code reads past the bitmap for others.
- VirtualMemory.AddressSpace.constructor: does not map the framebuffer; vmm_init does that with further calls of
  vmm_map_page.
- VirtualMemory.AddressSpace.CopyKernelPages: the copy is stated for a cleared directory in a frame, as
  vmm_create_user_page_dir makes it; the kernel's own directory is a separate array that is taken to be no frame of the
  allocator.
- Paging.WalkEqualsFlatMap: the model writes a table whether or not its frame is mapped at its own address. What it says
  is what the code does on runs that keep the first 128 MB mapped to themselves; Image.RunKeepsIdentityExactly says which
  those are, vmm_init starts them, and the loader and the heap are proved to stay among them.
- Copies.CopyAfterRun: as WalkEqualsFlatMap.
- vmm_free_user_pages: it frees frames that the copied tables share with the kernel, so it is no inverse of creating a
  directory.
- Scheduling.Scheduler.Unlink: gives back the stacks and the task of a user task, not its page directory.
- Scheduling.Scheduler.Reap: gives back the stacks and the tasks, not the page directories.
- Scheduling.Scheduler.TickAndReap: as Reap.
- Scheduling.Scheduler.SwitchTask: neither the stack in the TSS nor CR3 is kept.
- Scheduling.Scheduler.TimerHandler: as Reap and SwitchTask.
- Scheduling.Scheduler.CreateTask: the addresses kmalloc returns are parameters (SchedHeap.Spawn supplies them for kernel
  tasks); the mapping of user stacks, the first stack frame, names, file descriptors and parent ids are not kept.
- SchedHeap.Spawn: for kernel tasks. It stops when there is no memory for the task object, where the code writes through
  the null pointer that new returns.
- process_wait: it reads a task after yielding, when the task may already be deleted. process_list: output.
- SchedModel.ApplyKeepsInv: takes it as given that the idle task, which only halts, neither sleeps nor exits and that
  nobody kills it; process_kill protects process 1 only. KillKeepsInvExactly and PickIsListedExactly say what that means.
- SchedModel.OthersDoNotDelay: for runs in which nobody kills the idle task; the same holds for the theorems on waiting
  and sleeping.
- HeapModel.MallocKeepsInv: for requests up to 0xFFFFEFF0, beyond which the rounding wraps around (RoundingHolds).
- KernelHeap.Heap.Kmalloc: for requests up to 0xFFFFEFF0, as MallocKeepsInv. Headers are a map beside the bytes of the
  heap, so that writing them changes no byte; they are proved to lie outside every payload in use.
- Elf.FindHull: for files whose header offsets and segment ends do not overflow 32 bits; the code does not check them.
- Elf.MapSegment: for segments at or above 128 MB. Below, a mapping would take away the identity mapping that the loader
  itself clears frames through.
- Elf.CopySegment: for segments the page loop reaches, with filesz at most memsz. Elsewhere the code stores to pages it
  has not mapped; ReachedMeansCovered and ClearingStaysInside say exactly when.
- Elf.LoadedStep: for the same segments.
- Elf.LoadSegments: for files of such segments that cover no page the file itself lies in; InputLostExactly says what
  becomes of the input otherwise.
- Elf.LoadFromMemory: as LoadSegments.
- ElfDisk.LoadBesideHeap: for files whose segments lie outside the heap region.
- ElfDisk.LoadFromDisk: as LoadBesideHeap. The file reader fills an array, which is then stored byte by byte behind the
  pointer that kmalloc returned; the code lets the reader write there directly.
- Messages.Mailboxes.Receive: stands for ipc_receive as well, which is the same loop for the calling process; a null
  sender pointer is not modelled.
- Fat.FatVolume.Init: for signed boot sectors with 512-byte sectors and at least one sector per cluster; the code divides
  by both.
- Fat.FatVolume.FindInChain: for searches that end, as a method must end; SearchNeverEndsExactly says which do not.
- Fat.FatVolume.FindEntry: as FindInChain.
- Fat.FatVolume.GetFileSize: as FindInChain.
- Fat.FatVolume.ReadFile: as FindInChain.
- FatImage.MountAndRead: the written volume names one file; whatever else its directory, tables and clusters hold is left
  open, as long as no other entry of that name comes before it.
- FatImage.MountAndRead32: the same.
- FatListing.ListChain: for listings that end, as a method must end; ListNeverEndsExactly says which do not. The headings,
  the colours and the message for an inactive volume are left out.
- FileTree.FileSystem.constructor: the directories and files that fs_init adds are ordinary calls of vfs_mkdir and
  vfs_create; their contents are not modelled.
- FileTree.FileSystem.Write: the outcome of kmalloc is a parameter, and the kfree of the old buffer is left out.
- FileTree.FileSystem.Make: for names shorter than 32 and paths shorter than 128 characters, which is what fits the node;
  the code copies longer ones without a check. C strings are sequences of characters without a zero.
- vfs_find_child is never called and api_write_file_legacy makes duplicate nodes by design.
- Line.Screen.DrawLine: for extents up to 0x2AAAAAAA, for which twice the error term fits 32 bits; rows of the framebuffer
  are whole numbers of pixels.
