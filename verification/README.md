# A verified model of the kernel's memory, loader, file and console code

This project models the parts of a small 32-bit x86 kernel in which state, aliasing and
32-bit arithmetic decide correctness, and proves what they promise:

- the kernel heap of `arch/memory.c`: first fit over headers that live inside the heap's own
  bytes, with splitting and two-sided coalescing;
- the physical frame bitmap, seeded from the Multiboot memory map (section 3.3 "Boot
  information format" of the Multiboot Specification 0.6.96);
- two-level page tables (section 4.3 "32-bit paging" of the Intel SDM, Volume 3A), both for
  `page_map` and for the kernel's identity mapping;
- the ELF loader ("Program Header", chapter 5 of the System V gABI), composed with the heap
  and the paging code;
- the ext2 read path: inodes, directory records, the two lookups, the listing, file loading,
  `cat`, path resolution and the shell's current directory;
- the keyboard driver, its key state and its ring buffer under interrupts, and the user shell's
  line editor, history and environment table.

`dafny verify dfyconfig.toml` checks everything.

## How the model is built

Numbers are unbounded naturals; every place where the C code computes in 32 bits writes the
wrap-around out (`% WORD_LIMIT`, `AlignUp32`). Bitwise operators are the recursive functions of
`Bits.dfy`, so a page-table entry or a bitmap word is the number the C code stores.

Code that updates memory is a class or a method over arrays: `KernelHeap.Heap` reads and writes
headers as bytes of `g_heap` and follows 32-bit addresses, `Frames.FrameBitmap` holds packed
words, `AddressSpace.Spaces` and `KernelPaging.KernelSpace` hold physical memory as an array of
pages, `Cwd.Shell` holds the 128-byte path buffer, `LineEditor.Editor` the 256-byte line and the
16 rows of the history, `ShellEnv.Environment` the 32 rows of the table, all as bytes. Each
method is tied to a specification function (`HeapLayout.Alloc`, `AddressSpace.Mapped`,
`ElfImage.Fold`, `LineEditor.Key`, ...) and the theorems are proved about those functions, most
of them over whole runs.

What comes from outside is a parameter: where the linker put `g_heap` and the page tables, the
boot information block, `kernel_end`, the bytes `vfs_read` delivers and its verdict, the disk as
a map from block id to bytes, the memory that lies behind a static block buffer (a malformed
record can make the scan look there), and the exit status behind `$?`.

Preconditions that stand for facts the code relies on:

- a pointer passed to `kfree` belongs to a block of the list, live or free, or has no block magic
  in front of it, because a merged header keeps its magic number and would be accepted again;
  `krealloc` is given a live payload or a pointer without block magic;
- `kcalloc` and `krealloc` are not asked for a size above 0xFFFFFFD0 while some block fits its
  wrapped total, since they would then fill a block smaller than the request;
- 128-byte inodes, one block group, block sizes 1024, 2048 or 4096, block ids of directories
  that `read_fs_block` does not refuse, entries that lead to existing inodes. Inodes that no
  entry leads to and the block words of other files are unconstrained;
- directory names of at most 31 characters for the agreement of path and inode, since
  `resolve_path` cuts there, and a current path that fits its 128-byte buffer when a directory
  is entered, since `ext2_cd` does not check (`arch/ext2_cd.c:46-56`);
- the linker puts the kernel's page directory and tables into the kernel image, below 128 MiB;
- environment names without `=` and NUL.

### Where the code does less than it promises

- `kmalloc` sizes in (0xFFFFFFD0, 0xFFFFFFF0] wrap the size computation below a header. If the
  block found is large enough to be split, two headers overlay each other and no list of blocks
  is left in memory; otherwise the call is harmless. `NeedIsExactIff`, `CutKeepsListIff` and the
  contract of `Kmalloc` give the exact conditions, `WrappingRequestBreaksList` the case of
  0xFFFFFFE0 bytes on the fresh heap, and `WalkNeverEnds` shows that a later search can run
  forever. Sizes above 0xFFFFFFF0 yield a block with no room for the request (`HoldsRequestIff`).
- `page_map` clears a new page table t at its physical address, through the kernel's own
  directory. Three things can happen (`OutcomeOf`, and the contract of `PageMap`, which covers
  every directory, page and frame): the call works exactly if the kernel's page t means frame t,
  halts in the page fault handler exactly if that page is absent, and otherwise clears a foreign
  frame and leaves the table with its old bytes (`StrayedTranslates`).
  - Only 128 MiB are identity-mapped while `pmm_alloc_frame` hands out frames up to 512 MiB. With
    at most 128 MiB no run halts (`SmallMemoryNeverHalts`); with more, some run does exactly when
    a frame from 128 MiB upwards is free (`LargeMemoryHaltsIff`). `BootHalfGigabyte` is the
    failing input: a machine with one region of 512 MiB, booted from the constructors on.
  - A request for the kernel's own directory may give a page of memory another frame. Of the
    lowest free frame, that makes the next call stray (`RemappedFreeFrameStrays`). Such a request
    is harmless exactly for frames in use for good, that is neither free nor handed out nor a
    directory or page table (`RemapHarmlessIff`, and after boot `KernelRemapHarmlessIff`).
- `load_file_to_memory` reports success without loading anything when rounding `i_size` up to
  blocks wraps; `LoadableIsExactIff` says exactly when.
- `page_map` stores its flags unmasked, so flags above bit 11 change the frame number;
  `FlagsMustFit` says exactly when they do not.
- The right-arrow key of `read_line` moves the cursor to the end of the line. It moves by one
  exactly when at most one character is to the right (`RightArrowIff`; `RightArrowJumps` shows
  the line "ab").
- `env_get` spells the exit status in three digits; the text is right exactly from 0 to 999
  (`StatusSpelledIff`).

## Model

| member | source | states |
|---|---|---|
| `HeapLayout.NeedIsExactIff` | arch/memory.c:48-50 | The 32-bit header-plus-aligned size is the intended one exactly up to 0xFFFFFFD0, falls below a header exactly in the next 32 sizes, and is a bare header above. |
| `HeapLayout.Ascending` | arch/memory.c:60-82 | Local adjacency of blocks implies that they ascend, do not overlap, stay inside the heap and start 16-aligned. |
| `HeapLayout.FirstFitIsLowestGap` | arch/memory.c:440-453 | First fit fails exactly when no maximal gap between live bytes is large enough; otherwise it starts at the lowest such gap. |
| `HeapLayout.AllocKeeps` | arch/memory.c:60-82 | Allocation keeps the tiling and the absence of neighbouring free blocks, adds exactly one live block, cut to size exactly when more than 48 bytes would be left over and otherwise the whole block found. |
| `HeapLayout.ReleaseKeeps` | arch/memory.c:84-100 | Freeing keeps the tiling, leaves no two neighbouring free blocks, and removes exactly the freed block from the live ones. |
| `HeapLayout.ReleaseFree` | arch/memory.c:466-470 | Freeing a block of the list that is free already changes nothing, because its neighbours are live. |
| `HeapLayout.Canonical` | arch/memory.c:84-100 | Two well-formed layouts with the same live blocks are equal: the free list is forced by the live blocks. |
| `HeapLayout.ReleaseUndoesAlloc` | arch/memory.c:456-471 | Freeing a block just allocated restores the identical list of blocks. |
| `HeapRuns.RunKeepsTiling` | arch/memory.c:431-515 | After any run of kmalloc, kfree and krealloc on live pointers the blocks tile the heap and are coalesced. |
| `HeapRuns.BalancedRunRestores` | arch/memory.c:431-515 | A run that ends with the live blocks it began with ends with the same layout. |
| `HeapRuns.FreeAllInAnyOrder` | arch/memory.c:456-471 | Freeing all live blocks in any order leaves one free block of HEAP_SIZE. |
| `HeapRuns.FreeUndoesMalloc` | arch/memory.c:456-471 | Freeing what a successful kmalloc returned gives back the layout before it. |
| `HeapRuns.HoldsRequestIff` | arch/memory.c:440-448 | The block handed out holds the request exactly when the size is at most 0xFFFFFFD0. |
| `HeapMemory.SplitLinks` | arch/memory.c:68-81 | The three header writes of split_block turn a correctly linked list into the correctly linked list of the split layout. |
| `HeapMemory.SplitKeepsPayload` | arch/memory.c:68-81 | split_block writes no payload byte of another block. |
| `HeapMemory.CutKeepsListIff` | arch/memory.c:60-82 | For every total short of the block, some list of blocks is linked after the writes of split_block exactly when the total covers a header. |
| `HeapMemory.OverlaidIsNoList` | arch/memory.c:68-81 | After a split at less than a header no layout whatever is spelled by the headers in memory. |
| `HeapMemory.WalkNeverEnds` | arch/memory.c:444-451 | After a split at 0 bytes a walk along the next pointers from the head never reaches the end. |
| `HeapMemory.WrappingRequestBreaksList` | arch/memory.c:60-82 | 0xFFFFFFE0 bytes asked of the fresh heap leave one header linked to itself in both directions and no list. |
| `HeapMemory.MergeLinks` | arch/memory.c:94-99 | The header writes of merge_with_next produce the correctly linked merged list. |
| `HeapMemory.MergeKeepsPayload` | arch/memory.c:94-99 | merge_with_next writes no payload byte. |
| `HeapMemory.HeaderBytes` | arch/memory.c:24-31 | A header read from the bytes of the C structure has the five fields that were laid out there. |
| `KernelHeap.Heap.HeapInit` | arch/memory.c:262-276 | Lazy initialisation yields one free block; a repeated call leaves memory and head as they are. |
| `KernelHeap.Heap.SplitBlock` | arch/memory.c:60-82 | The list in memory becomes the split layout and other payloads keep their bytes; a cut at less than a header overlays two headers. |
| `KernelHeap.Heap.MergeWithNext` | arch/memory.c:84-100 | The list in memory becomes the merged layout; payloads keep their bytes. |
| `KernelHeap.Heap.Kmalloc` | arch/memory.c:431-454 | For every size: NULL exactly for size 0 or when no gap fits; otherwise the lowest fitting gap, a 16-aligned new live block at most 48 bytes too large, every live payload keeping its bytes, unless the request splits a block at less than a header, and then no list is left. |
| `KernelHeap.Heap.Kfree` | arch/memory.c:456-471 | The block leaves the live set, both neighbours are merged, every remaining live payload keeps its bytes; a pointer without block magic, or to a block that is free already, changes nothing. |
| `KernelHeap.DivisionGuardIsExact` | arch/memory.c:473-476 | The division guard rejects exactly the products that do not fit 32 bits. |
| `KernelHeap.Heap.Kcalloc` | arch/memory.c:473-485 | NULL exactly for an empty, overflowing or unsatisfiable product; otherwise the whole product is zeroed and other live payloads keep their bytes. |
| `KernelHeap.Heap.Krealloc` | arch/memory.c:487-515 | For a live pointer or NULL: NULL exactly for size 0 or when the old block is too small and no gap fits; a size the old block holds gives back the same pointer with nothing changed; any other block is new, starts with every byte of the old one and replaces it among the live blocks; on failure the old block is live and untouched; no other live payload changes. A pointer without block magic gets NULL. |
| `Bytes.Memset` | arch/memory.c:517-523 | The range holds the byte, everything else is unchanged. |
| `Bytes.Memcpy` | arch/memory.c:525-532 | The source bytes arrive for separate ranges and for ranges that move down. |
| `Bytes.Memmove` | arch/memory.c:534-555 | The source bytes arrive for every overlap. |
| `Frames.FrameBitmap.SetFrame` | arch/memory.c:106-108 | OR into a packed word adds one frame to the set in use. |
| `Frames.FrameBitmap.ClearFrame` | arch/memory.c:110-112 | AND with the complement removes one frame from the set in use. |
| `Frames.FrameBitmap.TestFrame` | arch/memory.c:114-116 | The shifted bit is membership in the set in use. |
| `Frames.VisitedIsOverlap` | arch/memory.c:118-134 | Short of a wrap, the rounding loops visit exactly the frames below the memory size that share a byte with the range. |
| `Frames.FrameBitmap.ReserveRange` | arch/memory.c:118-135 | Exactly the visited frames become used. |
| `Frames.FrameBitmap.FreeRange` | arch/memory.c:137-154 | Exactly the visited frames become free. |
| `Frames.FrameBitmap.AllocFrame` | arch/memory.c:398-408 | The lowest free frame becomes used, or 0 is returned and nothing changes. |
| `Frames.FrameBitmap.FreeFrame` | arch/memory.c:410-416 | A frame below the count becomes free, any other address changes nothing. |
| `FrameRuns.RunKeeps` | arch/memory.c:398-416 | Over any run that frees only frames it was given, frames handed out are distinct, below the count and never reserved. |
| `FrameRuns.NextAllocation` | arch/memory.c:398-408 | After any such run the next allocation is the lowest frame neither reserved nor handed out, and 0 means exhaustion. |
| `MemoryInit.MaxEndIsMaximum` | arch/memory.c:286-305 | The detected size is an upper bound of the usable regions and is attained. |
| `MemoryInit.DetectMemoryBytes` | arch/memory.c:278-320 | The map, then the kilobyte counts, then 64 MiB decide the size, with the code's wrap-around. |
| `MemoryInit.MemoryBytesWithoutMap` | arch/memory.c:308-319 | Without a map that names memory the size is 1024 times the kilobytes counted, exactly below 4 GiB, and 64 MiB if none are counted or the boot loader is no Multiboot loader. |
| `MemoryInit.MemoryBytesWithMap` | arch/memory.c:283-306 | With a map that names memory the size is the highest end of its usable regions, whatever the counts say. |
| `MemoryInit.TotalBytesMeans` | arch/memory.c:330-334 | The size settled on is the memory found, cut at 512 MiB and completed to a whole page. |
| `MemoryInit.FreeMap` | arch/memory.c:344-366 | Walking the map by its size fields frees exactly the frames a usable region touches. |
| `MemoryInit.InitFrames` | arch/memory.c:330-379 | A frame is free exactly when it is below the frame count, usable, and kept for nothing. |
| `MemoryInit.UsableIsMemory` | arch/memory.c:344-373 | A frame counts as usable exactly if one of its bytes lies in a usable region, or from 1 MiB to the memory size when there is no map. |
| `PageEntries.FlagsMustFit` | arch/memory.c:594-597 | An entry keeps the frame it was built from, for every frame, exactly when the flags stay in the low 12 bits. |
| `PageEntries.EntryStores` | arch/memory.c:594-597 | The number stored is frame, flags and present bit; each of its low 12 bits is set exactly if the flag is, or it is the present bit. |
| `PageEntries.DirEntryOr` | arch/memory.c:165-165 | Repeated OR updates of a directory entry leave the entry for its table, and only ever add the user bit. |
| `AddressSpace.TableAdded` | arch/memory.c:589-595 | A fresh zeroed table that aliases nothing in use changes no translation in any directory. |
| `AddressSpace.EntryWritten` | arch/memory.c:596-597 | Writing one table entry changes the translation of one page of one directory. |
| `AddressSpace.MappedTranslates` | arch/memory.c:576-598 | What one page_map call that works leaves: the page translates to the frame and every other page of every directory as before; frame exhaustion changes nothing. |
| `AddressSpace.MappedStores` | arch/memory.c:590-597 | The words a call that works leaves in memory: the page's entry and that of a new table hold frame, all flags and the present bit, a new table is otherwise zero, and a directory entry that was present is kept. |
| `AddressSpace.WindowKeptIff` | arch/memory.c:585-598 | After a call that works the kernel finds every directory and page table at its own address, exactly unless the request redirects the page of one of them. |
| `AddressSpace.StrayedTranslates` | arch/memory.c:590-597 | After a call that strays, the pages behind the new table mean what its old bytes say, the mapping asked for is in the wrong frame, and all other translations are as before. |
| `AddressSpace.Spaces.PageGetPhys` | arch/memory.c:576-583 | The mapped frame plus the page offset, 0 for an absent page. |
| `AddressSpace.Spaces.PageMap` | arch/memory.c:585-598 | For every directory, page and frame: works, halts or strays as the kernel's page of the new table says; memory and bitmap afterwards in each case, with the frame and every flag bit of the entries in the words of memory; and exactly when the invariants are kept. |
| `PagingRuns.RunTranslates` | arch/memory.c:398-416 | Over any run of page_map, pmm_alloc_frame and pmm_free_frame on any directories, with or without exhaustion, the tables are the finite map described by the requests that took effect, the last one for a page winning, until a call strays. |
| `PagingRuns.NeverHalts` | arch/memory.c:589-593 | If every frame whose page is absent is in use for good, no run halts the kernel, whatever it maps. |
| `PagingRuns.HaltPossibleIff` | arch/memory.c:589-593 | Some run halts the kernel exactly when a frame whose page is absent is free at the start. |
| `PagingRuns.CarefulRunWorks` | arch/memory.c:585-598 | On clean tables no run strays or loses a table, if kernel requests redirect only pages of frames in use for good. |
| `PagingRuns.RemapHarmlessIff` | arch/memory.c:596-600 | Giving a kernel page of memory another frame is harmless in every later run exactly when that frame is in use for good. |
| `KernelPaging.TablesMean` | arch/memory.c:156-167 | Each page translates to itself or is absent, present pages are writable at both levels, user bits sit on exactly the user pages and the entries above them, and no other flag is set. |
| `KernelPaging.UserPagesMean` | arch/memory.c:156-167 | User code may write to a page, being present, writable and user at both levels, exactly if it is a user page. |
| `KernelPaging.KernelTablesAreSeparate` | arch/memory.c:156-167 | The kernel directory satisfies the invariant that page_map runs on. |
| `KernelPaging.MapStep` | arch/memory.c:156-167 | One identity_map_page adds one page, with or without the user bit, and disturbs no other entry. |
| `KernelPaging.CoversIsOverlap` | arch/memory.c:423-426 | Short of a wrap, the pages marked are those that share a byte with the range. |
| `KernelPaging.KernelSpace.SpaceMeans` | arch/memory.c:381-387 | After boot and any marks: identity or absent, writable at both levels, user bit exactly on covered pages, each entry pointing at its own table; user code may write to exactly the pages below 128 MiB that a marked range covers. |
| `KernelPaging.KernelSpace.FrameReached` | arch/memory.c:381-387 | The kernel reaches a frame at its own address exactly when it is below 128 MiB and identity-mapped at boot or marked since. |
| `KernelPaging.KernelSpace.BootBoundary` | arch/memory.c:381-385 | After boot the pages of memory present in the kernel's directory are exactly those below 128 MiB, each as itself. |
| `KernelPaging.KernelSpace.BootWindow` | arch/memory.c:381-387 | The kernel directory and its tables lie in the window they map. |
| `KernelPaging.KernelSpace.MarkUserRange` | arch/memory.c:418-429 | The range joins the marked ranges the tables represent. |
| `KernelPaging.KernelSpace.InitPaging` | arch/memory.c:338-387 | The tables represent the identity mapping below the memory size and 128 MiB plus the program and stack ranges. |
| `Boot.Machine.MemoryInit` | arch/memory.c:322-396 | Bitmap, page tables and heap after boot: in use are exactly the frames that hold no memory, the first 256, those of the kernel image, and every page opened to user code; the pages the kernel finds, and the invariants page_map runs on; a second call changes nothing. |
| `Boot.KeptMeans` | arch/memory.c:375-379 | What is kept from the allocator is the first MiB, the kernel image, and the pages the page tables open to user code. |
| `Boot.BootMarksMean` | arch/memory.c:386-387 | The pages opened to user code at boot are those of the program area and of the stack. |
| `Boot.UserPagesNotHandedOut` | arch/memory.c:375-416 | No run of pmm_alloc_frame and pmm_free_frame after boot hands out a frame in use at boot, nor a page opened to user code. |
| `Boot.SmallMemoryNeverHalts` | arch/memory.c:381-387 | With at most 128 MiB no run of page_map, pmm_alloc_frame and pmm_free_frame halts the kernel, whatever it maps. |
| `Boot.LargeMemoryHaltsIff` | arch/memory.c:585-593 | After boot some run halts the kernel exactly when a frame from 128 MiB upwards is free. |
| `Boot.BootHalfGigabyte` | arch/memory.c:322-396 | A machine with 512 MiB, booted from the constructors on, has a run that halts the kernel. |
| `Boot.RemappedFreeFrameStrays` | arch/memory.c:585-600 | After boot, giving the kernel page of the lowest free frame another frame g makes the next call that needs a table clear g. |
| `Boot.KernelRemapHarmlessIff` | arch/memory.c:585-600 | After boot, giving a kernel page of memory another frame is harmless exactly if the frame is in use and no directory or page table. |
| `ElfImage.AcceptsIsExact` | arch/elf.c:107-126 | The wrapping tests accept exactly the segments inside the file whose memory lies in the user area. |
| `ElfImage.TableFitsIsExact` | arch/elf.c:93-98 | The wrapping test accepts exactly the program header tables inside the file. |
| `ElfEncode.HeaderOkMeans` | arch/elf.c:64-98 | The header tests, byte by byte: magic, class, byte order, version, machine, the two sizes, and a table inside the file. |
| `ElfImage.FoldByte` | arch/elf.c:100-140 | In the loaded area the last segment covering an address decides its byte (file byte or zero); uncovered bytes are unchanged. |
| `ElfImage.OtherKindsPass` | arch/elf.c:103-105 | A program header that is not loadable passes, loads nothing and marks nothing. |
| `ElfEncode.ProgramSegment` | arch/elf.c:100-105 | The loader reads segment i of a file written field by field as the i-th piece: its address, its sizes and its own bytes. |
| `ElfEncode.ProgramLoads` | arch/elf.c:64-147 | A program written field by field is accepted with its entry point, and each address of the user area gets the byte of the last piece that covers it, or keeps its own. |
| `ElfEncode.ProgramPagesMarked` | arch/elf.c:128-130 | Every page a piece of a written program touches is covered by a mark. |
| `ElfImage.MarkCoversSegment` | arch/elf.c:128-130 | The marked pages cover the segment, exceed it by at most one page, and are exact for page-aligned segments. |
| `ElfImage.SegmentPagesMarked` | arch/elf.c:100-140 | After the loop every page of every loaded segment is covered by a mark. |
| `ElfLoader.MarksOpenSegments` | arch/elf.c:128-130 | The marks of the segment loop open every page of every loaded segment to user code, for reading and writing. |
| `ElfLoader.CheckHeader` | arch/elf.c:64-98 | Accepts exactly the images whose header passes every test, reading only inside the image. |
| `ElfLoader.LoadSegments` | arch/elf.c:100-140 | Headers up to the first bad one take effect in order; success exactly if there is none. |
| `ElfLoader.LoadElf` | arch/elf.c:35-147 | On every exit the heap layout and all live payloads are as before; memory outside the user area is untouched; success exactly for readable, allocatable, well-formed images, and then the area is the fold of all segments; every page of a loaded segment translates to itself, writable by user code. |
| `Ext2Fs.InodeSlice` | fs/inode.c:31-53 | The block and offset arithmetic selects the inode's own 128 bytes of the inode table. |
| `Ext2Fs.ReadInode` | fs/inode.c:10-55 | The struct receives the inode's own 128 bytes of the table; a number outside the table leaves it unchanged. |
| `Ext2Layout.InodeReadsBack` | include/ext2.h:66-88 | Decoding an inode written field by field gives back its mode, its size and its fifteen block ids. |
| `Ext2Layout.DirectoryMode` | arch/ext2_lookup.c:14-14 | An inode counts as a directory exactly for file type 4, whatever the permissions. |
| `Ext2Dir.RecordsIgnoreTail` | arch/ext2_lookup.c:46-66 | A well-formed block reads the same whatever lies behind the buffer. |
| `Ext2Dir.LookupIsFind` | arch/path.c:51-54 | For NUL-free entry names comparing C strings and comparing lengths and bytes find the same entry. |
| `Ext2Dir.LookupIffListed` | arch/ext2_ls.c:63-81 | A name can be looked up exactly when the listing shows it. |
| `Ext2Dir.ListingLines` | arch/ext2_ls.c:63-81 | One line for each live entry, in order, marked as a directory exactly for type 2. |
| `Ext2Encode.RecordsRoundTrip` | arch/ext2_lookup.c:46-66 | Writing directory records and scanning the block gives back the live ones in order. |
| `SampleDisk.WrittenIsWellFormed` | arch/ext2_lookup.c:46-66 | Every block written record by record meets the well-formedness the agreement of the lookups asks for. |
| `Ext2Scan.LookupBlock` | arch/ext2_lookup.c:46-66 | The first live entry of that name in the block, for any block contents. |
| `Ext2Scan.FindBlock` | arch/path.c:45-58 | The first live entry of that name in the block, for any block contents. |
| `Ext2Scan.SelectBlock` | arch/ext2_lookup.c:24-40 | The block id of the next index through direct and single-indirect blocks; the indirect block is read once into a heap buffer, and the scan stops exactly when the heap has no room for it. |
| `Ext2Scan.Ext2Lookup` | arch/ext2_lookup.c:9-72 | The first live entry of that name in block order through direct and single-indirect blocks, or 0; every exit leaves the heap layout and all live payloads as they were. |
| `Ext2Scan.FindInodeInDir` | arch/path.c:9-63 | The same by byte comparison, with the heap as it was. |
| `Ext2Scan.Ext2Ls` | arch/ext2_ls.c:28-90 | Names and directory markers of the live entries in block order, with the heap as it was. |
| `Ext2Scan.LookupsAgree` | arch/ext2_lookup.c:18-71 | On well-formed directories the two lookups agree whatever their buffers held, and find exactly what is listed. |
| `Ext2Layout.ListedBlock` | arch/ext2_lookup.c:24-40 | Block index i of an inode that lists blocks, twelve directly and the others in a block of ids, leads to the i-th of them; those beyond the twelfth are reached exactly with room for the indirect block. |
| `Ext2Layout.DirectoryReadsBack` | arch/ext2_lookup.c:18-71 | A directory written block by block reads as its live records in order, or those of the first twelve blocks when there is no room for the indirect block. |
| `Ext2File.LoadableIsExactIff` | arch/load.c:18-23 | The verdict is the promised one exactly when rounding the size up does not wrap. |
| `Ext2File.LoadFile` | arch/load.c:13-68 | True exactly for loadable files, and then the destination is the concatenation of the blocks with holes as zeros; on failure the blocks that can be reached are in place; nothing behind the written blocks changes. |
| `Ext2File.CatFile` | arch/ext2_cat.c:46-99 | The file's bytes block by block, holes skipped, and a newline. |
| `Ext2File.CatPrintsLoadedBytes` | arch/ext2_cat.c:54-97 | cat prints the first i_size loaded bytes with hole blocks deleted, and exactly those bytes on hole-free files. |
| `Ext2Layout.FileReadsBack` | arch/load.c:13-68 | A file stored in listed blocks loads exactly if it is not empty, its image begins with its bytes, zeros for holes, and cat prints those bytes if there is no hole. |
| `PathText.TokensOfJoin` | arch/path.c:76-83 | The names of p/q are those of p followed by those of q. |
| `PathText.ResolveJoin` | arch/path.c:66-90 | Resolving p/q is resolving q's names from where p leads. |
| `PathText.ResolveRoot` | arch/path.c:66-74 | The empty path leads nowhere and "/" leads to inode 2. |
| `PathText.LongNameIsCut` | arch/path.c:77-80 | A name of 32 to 62 characters is cut after the 31st and the rest is taken for another name. |
| `PathText.ResolveTrailingSlash` | arch/path.c:66-90 | One trailing slash makes no difference. |
| `PathText.ResolveLeadingSlash` | arch/path.c:73-74 | One leading slash makes no difference to a nonempty relative path. |
| `PathText.ResolveComponents` | arch/path.c:66-90 | For components of 1 to 31 characters resolution is the left fold of lookup from inode 2. |
| `PathResolve.NextName` | arch/path.c:77-83 | The buffer receives the next name and the cursor steps over one slash. |
| `PathResolve.ResolvePath` | arch/path.c:66-90 | The cursor loop computes the fold, and the heap is as it was. |
| `Cwd.StepAgrees` | arch/ext2_cd.c:19-58 | Each change of directory keeps path and inode in agreement. |
| `Cwd.CdFollowsPath` | arch/ext2_cd.c:19-58 | A change of directory goes exactly where resolving the current path with the name behind it leads, if that is a directory, and nowhere otherwise. |
| `Cwd.RunAgrees` | arch/ext2_cd.c:11-63 | At every point of any run from the root the path is normalised and resolves to the current inode. |
| `Cwd.ThereAndBack` | arch/ext2_cd.c:36-56 | Entering a child and returning restores path and inode. |
| `Cwd.Shell.Pop` | arch/ext2_cd.c:39-45 | The buffer holds the path without its last name, or the root. |
| `Cwd.Shell.Push` | arch/ext2_cd.c:46-56 | The buffer holds the path extended by the name. |
| `Cwd.Shell.Cd` | arch/ext2_cd.c:11-63 | Buffer and inode follow the specification of one change of directory, and the heap is as it was. |
| `SampleDisk.SampleIsTree` | arch/ext2_cd.c:19-34 | A disk given byte by byte is a tree with a directory below the root, so the results on runs of `cd` are not empty. |
| `KeyboardRing.PushKeeps` | arch/keyboard.c:38-44 | A push lands exactly when fewer than 127 characters are queued and never overwrites the slot a pop has read. |
| `KeyboardRing.PopKeeps` | arch/keyboard.c:46-51 | Each step of a pop keeps the queue, and the last one delivers the oldest character. |
| `KeyboardRing.RunKeeps` | arch/keyboard.c:33-51 | For every interleaving the delivered characters are a prefix of the accepted ones and at most 127 are queued. |
| `KeyboardRing.EmptyTest` | arch/keyboard.c:47-47 | Head equals tail exactly when nothing is queued. |
| `KeyboardRing.ZeroMeansEmpty` | arch/keyboard.c:46-51 | If no 0 is pushed, no pop delivers 0. |
| `KeyboardRing.RunsOfTheDriver` | arch/keyboard.c:33-51 | From the empty buffer, for every interleaving: prefix order, at most 127 queued, head equal to tail exactly when empty, no 0 delivered if none is pushed. |
| `Keyboard.HeldKeyIsSilent` | arch/keyboard.c:81-101 | A key that is down pushes nothing more until its break code. |
| `Keyboard.DownIsLastCode` | arch/keyboard.c:81-101 | Over any run of scancodes a plain key is down exactly if its last make or break code without prefix was a make. |
| `Keyboard.ShiftIsLastCode` | arch/keyboard.c:73-76 | The same for each shift key. |
| `Keyboard.CtrlIsLastCode` | arch/keyboard.c:67-78 | The same for each control key, the right one with prefix. |
| `Keyboard.AltIsLastCode` | arch/keyboard.c:69-80 | The same for each alt key, the right one with prefix. |
| `Keyboard.LetterTyped` | arch/keyboard.c:82-94 | Each letter key that is up gives its letter, with shift the capital 32 below, with control its place in the alphabet. |
| `Keyboard.DigitTyped` | arch/keyboard.c:6-24 | The keys above the letters give the digits, or with shift their signs. |
| `Keyboard.SignTyped` | arch/keyboard.c:6-24 | The punctuation keys give their signs, with shift the others. |
| `Keyboard.OtherKeysSilent` | arch/keyboard.c:6-24 | Exactly the keys without a character push none when pressed. |
| `Keyboard.ArrowsTyped` | arch/keyboard.c:61-66 | After a prefix the arrow keys give the four codes the shell expects. |
| `Keyboard.OnlyPressesPush` | arch/keyboard.c:58-101 | A scancode gives a character only as the make code of a key that is up, or of an arrow key after a prefix. |
| `Keyboard.PressPushesOne` | arch/keyboard.c:81-94 | Pressing a key that is up and has a character pushes exactly one, accepted if fewer than 127 wait. |
| `Keyboard.RunsOfTheKeyboard` | arch/keyboard.c:33-103 | For every sequence of scancodes arriving between steps of pops, from the empty buffer: order of acceptance, at most 127 waiting, no 0 delivered. |
| `Keyboard.Driver.BufferPush` | arch/keyboard.c:38-44 | The atomic push of the interleaving model. |
| `Keyboard.Driver.BufferPop` | arch/keyboard.c:46-51 | An uninterrupted pop is the interleaving model's steps; 0 exactly when empty. |
| `Keyboard.Driver.Handler` | arch/keyboard.c:53-104 | One scancode changes the key state as specified and pushes at most one character, never 0. |
| `LineEditor.SessionIsSuffix` | user/shell.c:109-118 | Over a session the history is the last at most 16 nonempty lines with consecutive repeats dropped. |
| `LineEditor.TypedFits` | user/shell.c:289-380 | For every key sequence the line fits the buffer and the history position is valid. |
| `LineEditor.TypingReturns` | user/shell.c:371-378 | Printable keys typed in a row join the text left of the cursor, as far as 255 characters have room. |
| `LineEditor.InsertionReads` | user/shell.c:371-378 | A printable key joins the text at the cursor if fewer than 255 characters are there, and is ignored otherwise. |
| `LineEditor.BackspaceReads` | user/shell.c:358-369 | Backspace removes the character before the cursor, or does nothing at the start. |
| `LineEditor.ArrowsRead` | user/shell.c:328-349 | The arrows keep the text: left goes back by one, right to the end; escape and redraw keep everything. |
| `LineEditor.UpRecalls` | user/shell.c:298-308 | Pressing up n times from a fresh line shows the n-th last line of the history. |
| `LineEditor.UpAndDown` | user/shell.c:298-326 | Up and down undo each other, stop at both ends, and below the newest line there is an empty one. |
| `LineEditor.EraseUndoesInsert` | user/shell.c:358-378 | Backspace undoes the insertion of a character. |
| `LineEditor.RightArrowIff` | user/shell.c:328-341 | The right arrow moves by one exactly when at most one character is to the right, and undoes the left arrow exactly at the end of the line. |
| `LineEditor.Editor.Insert` | user/shell.c:371-375 | The character joins the text left of the cursor, the text to the right is kept. |
| `LineEditor.Editor.Erase` | user/shell.c:359-362 | The character left of the cursor goes, everything else is kept. |
| `LineEditor.Editor.Press` | user/shell.c:293-379 | Every key but Enter acts on the buffer as on the zipper. |
| `LineEditor.Editor.AddToHistory` | user/shell.c:109-118 | The history array follows the specification. |
| `LineEditor.Editor.ReadLine` | user/shell.c:289-380 | The line read is the zipper's text after all keys, the typed characters themselves when they are printable and fit, and it joins the history. |
| `ShellEnv.GetReads` | user/shell.c:51-60 | What is read under a name is what the map holds. |
| `ShellEnv.SetRefines` | user/shell.c:74-100 | A set updates the map at one name and keeps names unique, or is refused for length or a full table. |
| `ShellEnv.SetReads` | user/shell.c:74-100 | A set is stored exactly when row and terminator fit 128 bytes and the name is there or a row is free; it then reads back, and every other name reads as before. |
| `ShellEnv.RunRefines` | user/shell.c:51-100 | Over any run the table reads as the finite map. |
| `ShellEnv.Environment.EnvGet` | user/shell.c:51-72 | The stored value, the exit status text for `?`, or the empty string. |
| `ShellEnv.StatusSpelledIff` | user/shell.c:62-70 | The three characters spell the exit status exactly from 0 to 999. |
| `ShellEnv.Environment.Overwrite` | user/shell.c:86-91 | Overwriting the value in place leaves the row with name and new value and every other row as it was. |
| `ShellEnv.Environment.EnvSet` | user/shell.c:74-100 | The table follows the map update. |

## Left out

- Port I/O, ATA, serial, IDT, GDT and assembly files: device behaviour and CPU state.
- `enable_paging`, `page_fault_handler`, ring switching: inline assembly.
- Screen output and echo: only the editing state of `read_line` is modelled, and `ext2_ls` and `ext2_cat` return what they would print.
- `src/kernel/main.c`, `tokenize`, `expand_vars`, `unset`, `memcmp`: the command loop and string splitting are not modelled.
- The file lookup at the head of `ext2_cat` and its error messages: it adds only a call of the modelled lookup.
- Null arguments of `load_elf_program_from_vfs` and of the ext2 commands: the model passes values.
- KernelHeap.Heap.Kfree: pointers to a header that was merged away are excluded, because its magic number still stands and the merge can corrupt the list.
- KernelHeap.Heap.Krealloc: sizes above 0xFFFFFFD0 that find a block are excluded, because the copy would run past the new block; so are pointers to blocks that are free already, which it would hand back as if they were live.
- KernelHeap.Heap.Kcalloc: products above 0xFFFFFFD0 that fit 32 bits and find a block are excluded, because the fill would run past g_heap.
- ElfLoader.LoadElf: file sizes above 0xFFFFFFD0 that find a block are excluded, because vfs_read would run past the image buffer.
- AddressSpace.Spaces.PageMap: flags above bit 11 are excluded; FlagsMustFit says what they do to an entry.
- AddressSpace.Strayed: what a stray call does to a frame that is itself a directory or page table follows the translation at the start of the call, and nothing is said of calls after a stray one.
- New page directories: the set of directories is fixed during a run, since the repository has no code that makes one.
- Multi-group file systems, inodes larger than 128 bytes, double and triple indirect blocks, map entries above 4 GiB: the code does not handle them.
