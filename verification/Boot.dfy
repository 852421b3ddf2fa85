/**
 memory_init as a whole: the frame bitmap, the kernel's page tables and the heap, and what
 they mean for the page_map calls that follow.
 */
module Boot {
  import opened Words
  import opened Bits
  import opened Bytes
  import opened HeapLayout
  import opened Frames
  import FrameRuns
  import opened MemoryInit
  import opened PageEntries
  import opened AddressSpace
  import opened PagingRuns
  import opened KernelPaging
  import opened KernelHeap

  /** Frames lo .. hi - 1 lie in the kernel image, which ends at address kernelEnd. */
  predicate InImage(lo: nat, hi: nat, kernelEnd: nat) {
    MEGABYTE <= lo * PAGE_SIZE && hi * PAGE_SIZE <= kernelEnd
  }

  lemma ImageIsKept(f: nat, lo: nat, hi: nat, kernelEnd: nat)
    requires InImage(lo, hi, kernelEnd) && lo <= f < hi
    ensures Kept(f, kernelEnd)
  {
    assert lo * PAGE_SIZE <= f * PAGE_SIZE && (f + 1) * PAGE_SIZE <= hi * PAGE_SIZE;
  }

  /** The state in which runs of page_map begin: nothing taken, running. */
  ghost function Booted(memory: Memory, used: set<nat>): Kernel {
    Kernel(State(memory, used), {}, Running)
  }

  // ---------------------------------------------------------------- page_map after boot

  /** With at most 128 MiB no run halts the kernel, whatever it maps. */
  lemma SmallMemoryNeverHalts(m: Memory, used: set<nat>, z: Setting, ops: seq<Op>)
    requires Inv(Booted(m, used), z) && RunAllowed(Booted(m, used), z, ops)
    requires Boundary(m, z, MAP_PAGES) && z.total <= MAP_PAGES
    ensures Run(Booted(m, used), z, ops).status != Halted
  {
    hide Inv, RunAllowed, Translate, Run;
    NeverHalts(Booted(m, used), z, ops, MAP_PAGES);
  }

  /** The topmost page of the kernel's directory, which has no page table after boot. */
  function TopPage(kd: nat): Request { Request(kd, ALL_PAGES - 1, ALL_PAGES - 1, 3) }

  lemma TopPageAllowed(k: Kernel, z: Setting)
    requires z.kd in z.dirs
    ensures Allowed(k, z, Map(TopPage(z.kd))) && TopPage(z.kd).pd == z.kd
    ensures TopPage(z.kd).page / ENTRIES == ENTRIES - 1 && TopPage(z.kd).page == TopPage(z.kd).frame
  {
  }

  /**
   With more memory, some run halts the kernel exactly when a frame from 128 MiB upwards is
   free at the start.
   */
  lemma LargeMemoryHaltsIff(m: Memory, used: set<nat>, z: Setting)
    requires Inv(Booted(m, used), z) && Boundary(m, z, MAP_PAGES) && !HasTable(m, z.kd, ENTRIES - 1)
    ensures (exists ops :: HaltingRun(Booted(m, used), z, ops)) <==>
            exists f: nat :: MAP_PAGES <= f < z.total && f !in used
  {
    hide Boundary, HaltingRun, HasTable, Sound, Structure, Allowed, TopPage;
    TopPageAllowed(Booted(m, used), z);
    HaltPossibleIff(Booted(m, used), z, MAP_PAGES, TopPage(z.kd));
  }

  /**
   A run that strays: the kernel page of the lowest free frame t is given frame g, and the next
   call that needs a page table clears g in its place.
   */
  lemma RemappedFreeFrameStrays(m: Memory, used: set<nat>, z: Setting, g: nat)
    requires Inv(Booted(m, used), z) && Boundary(m, z, MAP_PAGES) && !HasTable(m, z.kd, ENTRIES - 1)
    requires LowestFree(used, z.total) < z.total && LowestFree(used, z.total) < MAP_PAGES
    requires g < ALL_PAGES && g != LowestFree(used, z.total)
    ensures var t := LowestFree(used, z.total);
            var ops := [Map(Request(z.kd, t, g, 3)), Map(TopPage(z.kd))];
            RunAllowed(Booted(m, used), z, ops) && Run(Booted(m, used), z, ops).status == Astray(g)
  {
    hide Sound, Structure, Translate, Mapped, Strayed, Run, RunAllowed, TopPage;
    var t := LowestFree(used, z.total);
    var k, r, top := Booted(m, used), Request(z.kd, t, g, 3), TopPage(z.kd);
    var k' := Step(k, z, Map(r));
    TopPageAllowed(k, z);
    TopPageAllowed(k', z);
    PresentHasTable(m, z.kd, t);
    RemapFree(m, used, z, r);
    StepKeeps(k, z, Map(r));
    StepTranslates(k, z, Map(r), z.kd, t);
    RunOne(k, z, Map(r), [Map(top)]);
    RunOne(k', z, Map(top), []);
    RunOne(Step(k', z, Map(top)), z, Map(top), []);
    assert [Map(r)] + [Map(top)] == [Map(r), Map(top)] && [Map(top)] + [] == [Map(top)];
  }

  lemma PresentHasTable(m: Memory, kd: nat, p: nat)
    requires Translate(m, kd, p) != None
    ensures p < ALL_PAGES && HasTable(m, kd, p / ENTRIES)
  {
  }

  /** Mapping the page of a free frame takes no frame, adds no table and redirects none. */
  lemma RemapFree(m: Memory, used: set<nat>, z: Setting, r: Request)
    requires Inv(Booted(m, used), z) && r.pd == z.kd && Proper(r) && r.page !in used
    requires HasTable(m, z.kd, r.page / ENTRIES) && !HasTable(m, z.kd, ENTRIES - 1)
    ensures var k' := Step(Booted(m, used), z, Map(r));
            && k'.status == Running && k'.s.used == used && !HasTable(k'.s.mem, z.kd, ENTRIES - 1)
            && GoesThrough(Booted(m, used), z, r)
  {
    hide Separate, Translate, IsTable;
    var s := State(m, used);
    var t := TableOf(m, z.kd, r.page / ENTRIES);
    TableUsed(s, z.total, z.dirs, z.kd, r.page / ENTRIES);
    DirectoryUsed(s, z.total, z.dirs, z.kd);
    assert Mapped(s, z.total, r).mem[z.kd] == m[z.kd];
    FreeIsNoStructure(s, z.total, z.dirs, r.page);
    if IsTable(Mapped(s, z.total, r).mem, z.dirs, r.page) {
      MappedTables(s, z.total, z.dirs, r, r.page);
    }
  }

  /** After boot, giving a kernel page of memory another frame is harmless exactly for frames in use for good. */
  lemma KernelRemapHarmlessIff(m: Memory, used: set<nat>, z: Setting, r: Request)
    requires Inv(Booted(m, used), z) && Boundary(m, z, MAP_PAGES) && !HasTable(m, z.kd, ENTRIES - 1)
    requires r.pd == z.kd && Proper(r) && r.page < z.total && r.page != r.frame && HasTable(m, z.kd, r.page / ENTRIES)
    ensures (forall ops :: !FailingRun(Step(Booted(m, used), z, Map(r)), z, ops)) <==>
            r.page in used && !Structure(m, z.dirs, r.page)
  {
    hide Sound, Structure, Translate, FailingRun, TopPage, Mapped, Redirects;
    var k := Booted(m, used);
    TopPageAllowed(k, z);
    SameTop(m, used, z, r);
    RemapHarmlessIff(k, z, r, TopPage(z.kd));
  }

  lemma SameTop(m: Memory, used: set<nat>, z: Setting, r: Request)
    requires Inv(Booted(m, used), z) && r.pd == z.kd && Proper(r)
    requires HasTable(m, z.kd, r.page / ENTRIES) && !HasTable(m, z.kd, ENTRIES - 1)
    ensures !HasTable(Step(Booted(m, used), z, Map(r)).s.mem, z.kd, ENTRIES - 1)
    ensures GoesThrough(Booted(m, used), z, r)
  {
    hide Separate, Translate, IsTable, Redirects, Structure;
    var s := State(m, used);
    TableUsed(s, z.total, z.dirs, z.kd, r.page / ENTRIES);
    DirectoryUsed(s, z.total, z.dirs, z.kd);
    assert Mapped(s, z.total, r).mem[z.kd] == m[z.kd];
  }

  // ---------------------------------------------------------------- memory_init

  const BOOT_MARKS: seq<Range> := [Range(USER_PROGRAM_BASE, USER_PROGRAM_MAX_SIZE),
                                   Range(USER_STACK_TOP - USER_STACK_SIZE, USER_STACK_SIZE)]

  /** The pages opened to user code at boot are those of the program area and of the stack. */
  lemma BootMarksMean(p: nat)
    ensures Marked(BOOT_MARKS, p) <==>
            || Overlaps(p, USER_PROGRAM_BASE, USER_PROGRAM_MAX_SIZE)
            || Overlaps(p, USER_STACK_TOP - USER_STACK_SIZE, USER_STACK_SIZE)
  {
    CoversIsOverlap(USER_PROGRAM_BASE, USER_PROGRAM_MAX_SIZE, p);
    CoversIsOverlap(USER_STACK_TOP - USER_STACK_SIZE, USER_STACK_SIZE, p);
    assert BOOT_MARKS[0].phys == USER_PROGRAM_BASE && BOOT_MARKS[1].size == USER_STACK_SIZE;
  }

  /** What memory_init keeps: the first 256 frames, the kernel image, and the pages opened to user code. */
  lemma KeptMeans(f: nat, kernelEnd: nat)
    ensures Kept(f, kernelEnd) <==> f < 256 || f * 4096 < kernelEnd || Marked(BOOT_MARKS, f)
  {
    hide Marked;
    BootMarksMean(f);
  }

  /**
   No later run of pmm_alloc_frame and pmm_free_frame hands out a frame that was in use after boot,
   so none that holds a page opened to user code.
   */
  lemma UserPagesNotHandedOut(used: set<nat>, total: nat, ops: seq<FrameRuns.Op>)
    requires forall f: nat :: f < total && Marked(BOOT_MARKS, f) ==> f in used
    requires FrameRuns.RunAllowed(FrameRuns.State(used, multiset{}), total, ops)
    ensures forall f :: f in FrameRuns.Run(FrameRuns.State(used, multiset{}), total, ops).owned ==>
              f < total && f !in used && !Marked(BOOT_MARKS, f)
  {
    hide Marked;
    FrameRuns.RunKeeps(FrameRuns.State(used, multiset{}), total, used, ops);
  }

  class Machine {
    const frames: FrameBitmap
    const space: KernelSpace
    const heap: Heap
    var pagingReady: bool

    constructor (bitmap: FrameBitmap, kernelSpace: KernelSpace, kernelHeap: Heap)
      ensures frames == bitmap && space == kernelSpace && heap == kernelHeap && !pagingReady
    {
      frames, space, heap, pagingReady := bitmap, kernelSpace, kernelHeap, false;
    }

    /** Frame count and directories as page_map finds them. */
    ghost function Arrangement(): Setting
      reads this, frames
    {
      Setting(frames.totalFrames, space.kd, {space.kd})
    }

    /** The parts do not overlap and the linker put directory and tables into the kernel image. */
    ghost predicate Laid(kernelEnd: nat)
      reads this, heap
    {
      && frames.words.Length == BITMAP_WORDS && heap.Placed() && kernelEnd + PAGE_SIZE <= WORD_LIMIT
      && space.ram as object != frames.words && space.ram as object != heap.mem && frames.words as object != heap.mem
      && MAX_FRAMES <= space.ram.Length <= ALL_PAGES && !(space.tb <= space.kd < space.tb + TABLES)
      && kernelEnd <= MAP_PAGES * PAGE_SIZE
      && InImage(space.kd, space.kd + 1, kernelEnd) && InImage(space.tb, space.tb + TABLES, kernelEnd)
    }

    /**
     memory_init.  A second call returns at once.  The first leaves a bitmap in which exactly
     the usable frames are free, an identity mapping of which the kernel reaches exactly the
     frames below 128 MiB, and page tables that meet the no-aliasing invariant.
     */
    method MemoryInit(magic: nat, infoAddr: nat, info: BootInfo, kernelEnd: nat, ghost es: seq<MmapEntry>)
      requires Laid(kernelEnd) && WellFormedMap(info, es) && heap.Valid()
      modifies this`pagingReady, frames, frames.words, space, space.ram, heap`head, heap`ready, heap.mem
      ensures pagingReady && heap.Valid()
      ensures old(pagingReady) ==>
                && frames.words[..] == old(frames.words[..]) && space.ram[..] == old(space.ram[..])
                && frames.totalBytes == old(frames.totalBytes) && frames.totalFrames == old(frames.totalFrames)
                && space.marks == old(space.marks) && space.identityBytes == old(space.identityBytes)
                && heap.mem[..] == old(heap.mem[..]) && heap.head == old(heap.head) && heap.ready == old(heap.ready)
      ensures !old(pagingReady) ==>
                && frames.Valid() && frames.totalBytes == TotalBytes(magic, infoAddr, info, es) && 0 in frames.Used()
                && (forall f :: 0 <= f < MAX_FRAMES ==>
                      (f !in frames.Used() <==>
                        && f < frames.totalFrames
                        && Usable(f, magic, infoAddr, info, es, frames.totalBytes)
                        && !Kept(f, kernelEnd)))
      ensures !old(pagingReady) ==>
                && space.Valid() && heap.ready
                && space.marks == BOOT_MARKS
                && Boundary(space.ram[..], Arrangement(), MAP_PAGES) && !HasTable(space.ram[..], space.kd, ENTRIES - 1)
                && Separate(space.ram[..], frames.Used(), {space.kd})
                && (kernelEnd <= frames.totalBytes ==> Inv(Booted(space.ram[..], frames.Used()), Arrangement()))
      // bitmap and page tables together: in use is exactly what holds no memory, the first 256
      // frames, the kernel image, and every page opened to user code
      ensures !old(pagingReady) ==>
                forall f: nat :: f < frames.totalFrames ==>
                  (f in frames.Used() <==>
                    || f < 256 || f * 4096 < kernelEnd || Marked(space.marks, f)
                    || !HoldsMemory(f, magic, infoAddr, info, es, frames.totalBytes))
    {
      hide WellFormedMap, Usable, Kept, Separate, Inv, Boundary, TotalBytes, HoldsMemory, Marked;
      if pagingReady {
        return;
      }
      InitFrames(frames, magic, infoAddr, info, kernelEnd, es);
      forall f: nat | f < frames.totalFrames
        ensures f in frames.Used() <==>
                || f < 256 || f * 4096 < kernelEnd || Marked(BOOT_MARKS, f)
                || !HoldsMemory(f, magic, infoAddr, info, es, frames.totalBytes)
      {
        KeptMeans(f, kernelEnd);
        UsableIsMemory(f, magic, infoAddr, info, es, frames.totalBytes);
      }
      SetUpPaging(kernelEnd);
      pagingReady := true;
      heap.HeapInit();
    }

    /** The paging half, on a bitmap in which the kernel image is in use. */
    method SetUpPaging(ghost kernelEnd: nat)
      requires Laid(kernelEnd) && frames.Valid()
      requires forall f: nat :: f < MAX_FRAMES && Kept(f, kernelEnd) ==> f in frames.Used()
      modifies space, space.ram
      ensures space.Valid()
      ensures space.marks == BOOT_MARKS
      ensures Boundary(space.ram[..], Arrangement(), MAP_PAGES) && !HasTable(space.ram[..], space.kd, ENTRIES - 1)
      ensures Separate(space.ram[..], frames.Used(), {space.kd})
      ensures kernelEnd <= frames.totalBytes ==> Inv(Booted(space.ram[..], frames.Used()), Arrangement())
    {
      hide Boundary, Kept, Separate, Window, Tables;
      ImageFrames(kernelEnd);
      space.InitPaging(frames.totalBytes, USER_PROGRAM_BASE, USER_PROGRAM_MAX_SIZE,
                       USER_STACK_TOP - USER_STACK_SIZE, USER_STACK_SIZE);
      space.BootBoundary(Arrangement());
      space.NoTableAbove(ENTRIES - 1);
      KernelTablesAreSeparate(space.ram[..], space.kd, space.tb, MappedPages(space.identityBytes, space.marks),
                              UserPages(space.marks), frames.Used());
      if kernelEnd <= frames.totalBytes {
        space.BootWindow(Arrangement());
      }
    }

    /** Directory and tables are in use, below 128 MiB, and below the memory size if the image is. */
    lemma ImageFrames(kernelEnd: nat)
      requires Laid(kernelEnd) && frames.Valid()
      requires forall f: nat :: f < MAX_FRAMES && Kept(f, kernelEnd) ==> f in frames.Used()
      ensures space.kd < MAP_PAGES && space.tb + TABLES <= MAP_PAGES
      ensures space.kd in frames.Used() && forall i :: space.tb <= i < space.tb + TABLES ==> i in frames.Used()
      ensures kernelEnd <= frames.totalBytes ==>
                space.kd < frames.totalFrames && space.tb + TABLES <= frames.totalFrames
    {
      hide Kept;
      ImageIsKept(space.kd, space.kd, space.kd + 1, kernelEnd);
      forall i: nat | space.tb <= i < space.tb + TABLES ensures i in frames.Used() {
        ImageIsKept(i, space.tb, space.tb + TABLES, kernelEnd);
      }
    }
  }

  // ---------------------------------------------------------------- a machine that can halt

  /** A memory map with one usable region, from 0 to 512 MiB. */
  const HALF_GIGABYTE: MmapEntry := MmapEntry(20, 0, 0, MAX_PHYS_MEM, 0, 1)
  const ONE_REGION: BootInfo := BootInfo(64, 0, 0, 24, map[0 := HALF_GIGABYTE])
  const IMAGE_END: nat := 0x0040_0000

  lemma OneRegionMap()
    ensures WellFormedMap(ONE_REGION, [HALF_GIGABYTE]) && HasMap(ONE_REGION)
    ensures TotalBytes(MULTIBOOT_MAGIC, 1, ONE_REGION, [HALF_GIGABYTE]) == MAX_PHYS_MEM
  {
    var es := [HALF_GIGABYTE];
    assert es[1..] == [] && Chain(ONE_REGION, 24, es[1..]);
    assert Chain(ONE_REGION, 0, es);
    assert Shr(64, 6) == Shr(32, 5) == Shr(16, 4) == Shr(8, 3) == Shr(4, 2) == Shr(2, 1) == Shr(1, 0) == 1;
    MaxEndStep(es, 0);
    assert es[..0] == [] && es[..1] == es;
  }

  lemma AboveWindowIsFree()
    ensures Usable(MAP_PAGES, MULTIBOOT_MAGIC, 1, ONE_REGION, [HALF_GIGABYTE], MAX_PHYS_MEM)
    ensures !Kept(MAP_PAGES, IMAGE_END)
  {
    OneRegionMap();
    assert HALF_GIGABYTE in [HALF_GIGABYTE] && Overlaps(MAP_PAGES, HALF_GIGABYTE.addrLow, HALF_GIGABYTE.lenLow);
  }

  /**
   The concrete failing input: a machine with 512 MiB, booted from the constructors on, has a
   run of pmm_alloc_frame and page_map that halts the kernel.
   */
  method BootHalfGigabyte(storage: array<byte>) returns (machine: Machine)
    requires storage.Length == HEAP_SIZE
    modifies storage
    ensures machine.pagingReady && machine.frames.Valid() && machine.frames.totalBytes == MAX_PHYS_MEM
    ensures exists ops :: HaltingRun(Booted(machine.space.ram[..], machine.frames.Used()), machine.Arrangement(), ops)
  {
    hide WellFormedMap, Usable, Kept, Boundary, Inv, HaltingRun, TotalBytes, Separate, HasTable;
    var bitmap := new FrameBitmap();
    var ram := new Page[MAX_FRAMES](_ => ZeroPage());
    var space := new KernelSpace(ram, 256, 257);
    var heap := new Heap(0x0030_0000, storage);
    machine := new Machine(bitmap, space, heap);
    OneRegionMap();
    AboveWindowIsFree();
    machine.MemoryInit(MULTIBOOT_MAGIC, 1, ONE_REGION, IMAGE_END, [HALF_GIGABYTE]);
    assert MAP_PAGES !in machine.frames.Used();
    LargeMemoryHaltsIff(machine.space.ram[..], machine.frames.Used(), machine.Arrangement());
  }
}
