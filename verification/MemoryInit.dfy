/**
 Seeding the frame bitmap from the Multiboot memory map.
 */
module MemoryInit {
  import opened Words
  import opened Bits
  import opened Frames

  const MULTIBOOT_MAGIC: nat := 0x2BAD_B002
  const MEGABYTE: nat := 0x0010_0000
  const USER_PROGRAM_BASE: nat := 0x0080_0000
  const USER_PROGRAM_MAX_SIZE: nat := 1048576
  const USER_STACK_TOP: nat := 0x00C0_0000
  const USER_STACK_SIZE: nat := 0x1000

  datatype MmapEntry = MmapEntry(size: nat, addrLow: nat, addrHigh: nat, lenLow: nat, lenHigh: nat, kind: nat)

  /** The boot information block; `mmap` gives the entry found at each offset from mmap_addr. */
  datatype BootInfo = BootInfo(flags: nat, memLower: nat, memUpper: nat, mmapLength: nat, mmap: map<nat, MmapEntry>)

  predicate HasMap(info: BootInfo) { Bit(info.flags, 6) && info.mmapLength != 0 }

  /** Following the size fields from offset `off` meets exactly the entries `es`. */
  ghost predicate Chain(info: BootInfo, off: nat, es: seq<MmapEntry>)
    decreases |es|
  {
    if es == [] then off >= info.mmapLength
    else
      && off < info.mmapLength && off in info.mmap && info.mmap[off] == es[0]
      && off + es[0].size + 4 < WORD_LIMIT
      && Chain(info, off + es[0].size + 4, es[1..])
  }

  /** A well-formed map below 4 GiB. */
  ghost predicate WellFormedMap(info: BootInfo, es: seq<MmapEntry>) {
    && info.memLower < WORD_LIMIT && info.memUpper < WORD_LIMIT
    && (HasMap(info) ==> Chain(info, 0, es))
    && (forall e :: e in es && e.kind == 1 ==>
          e.addrHigh == 0 && e.lenHigh == 0 && e.addrLow + e.lenLow < WORD_LIMIT)
  }

  // ---------------------------------------------------------------- memory size

  /** The highest end of a usable region, 0 if there is none. */
  function MaxEnd(es: seq<MmapEntry>): nat {
    if es == [] then 0
    else
      var rest := MaxEnd(es[..|es| - 1]);
      var e := es[|es| - 1];
      if e.kind == 1 && e.addrLow + e.lenLow > rest then e.addrLow + e.lenLow else rest
  }

  lemma {:induction false} MaxEndIsMaximum(es: seq<MmapEntry>)
    ensures forall e :: e in es && e.kind == 1 ==> e.addrLow + e.lenLow <= MaxEnd(es)
    ensures MaxEnd(es) > 0 ==> exists e :: e in es && e.kind == 1 && e.addrLow + e.lenLow == MaxEnd(es)
  {
    if es != [] {
      var last := es[|es| - 1];
      MaxEndIsMaximum(es[..|es| - 1]);
      assert last in es && es == es[..|es| - 1] + [last];
    }
  }

  /** detect_memory_bytes: the map if it names memory, else the kilobyte counts, else 64 MiB. */
  function MemoryBytes(magic: nat, infoAddr: nat, info: BootInfo, es: seq<MmapEntry>): nat {
    if magic == MULTIBOOT_MAGIC && infoAddr != 0 then
      if HasMap(info) && MaxEnd(es) != 0 then MaxEnd(es)
      else if Bit(info.flags, 0) && (info.memLower + info.memUpper) % WORD_LIMIT != 0 then
        (info.memLower + info.memUpper) % WORD_LIMIT * 1024 % WORD_LIMIT
      else 67108864
    else 67108864
  }

  /** Without a map that names memory, the size is the kilobytes the boot loader counted, or 64 MiB. */
  lemma MemoryBytesWithoutMap(magic: nat, infoAddr: nat, info: BootInfo, es: seq<MmapEntry>)
    requires WellFormedMap(info, es) && !(HasMap(info) && MaxEnd(es) != 0)
    ensures var bytes, kb := MemoryBytes(magic, infoAddr, info, es), info.memLower + info.memUpper;
            var counted := magic == 0x2BAD_B002 && infoAddr != 0 && info.flags % 2 == 1 && 0 < kb < WORD_LIMIT;
            && (counted && kb < 4194304 ==> bytes == 1024 * kb)
            && (counted ==> (bytes == 1024 * kb <==> kb < 4194304))
            && (magic != 0x2BAD_B002 || infoAddr == 0 || info.flags % 2 == 0 || kb == 0 ==> bytes == 64 * 1024 * 1024)
  {
    var kb := info.memLower + info.memUpper;
    assert Bit(info.flags, 0) <==> info.flags % 2 == 1;
    if kb < 4194304 {
      assert kb % WORD_LIMIT == kb && kb * 1024 < WORD_LIMIT;
    }
  }

  /** With a map that names memory, the size is its highest usable end, whatever the counts say. */
  lemma MemoryBytesWithMap(infoAddr: nat, info: BootInfo, es: seq<MmapEntry>, e: MmapEntry)
    requires WellFormedMap(info, es) && HasMap(info) && infoAddr != 0
    requires e in es && e.kind == 1 && e.addrLow + e.lenLow > 0
    ensures var bytes := MemoryBytes(0x2BAD_B002, infoAddr, info, es);
            && e.addrLow + e.lenLow <= bytes
            && exists h :: h in es && h.kind == 1 && bytes == h.addrLow + h.lenLow
  {
    MaxEndIsMaximum(es);
  }

  lemma ChainStep(info: BootInfo, off: nat, es: seq<MmapEntry>, i: nat)
    requires i <= |es| && Chain(info, off, es[i..]) && off < info.mmapLength
    ensures i < |es| && off in info.mmap && info.mmap[off] == es[i]
    ensures off + es[i].size + 4 < WORD_LIMIT && Chain(info, off + es[i].size + 4, es[i + 1..])
  {
    assert i < |es| ==> es[i..][0] == es[i] && es[i..][1..] == es[i + 1..];
  }

  lemma MaxEndStep(es: seq<MmapEntry>, i: nat)
    requires i < |es|
    ensures var e := es[i];
            MaxEnd(es[..i + 1]) ==
              if e.kind == 1 && e.addrLow + e.lenLow > MaxEnd(es[..i]) then e.addrLow + e.lenLow else MaxEnd(es[..i])
  {
    assert es[..i + 1][..i] == es[..i];
  }

  method ScanMap(info: BootInfo, ghost es: seq<MmapEntry>) returns (maxEnd: nat)
    requires WellFormedMap(info, es) && HasMap(info)
    ensures maxEnd == MaxEnd(es)
  {
    hide MaxEnd;
    maxEnd := 0;
    var offset := 0;
    ghost var i := 0;
    assert es[0..] == es && MaxEnd(es[..0]) == 0 by { MaxEndNone(es[..0]); }
    while offset < info.mmapLength
      invariant 0 <= i <= |es| && 0 <= offset && Chain(info, offset, es[i..]) && maxEnd == MaxEnd(es[..i])
      decreases |es| - i
    {
      ChainStep(info, offset, es, i);
      MaxEndStep(es, i);
      var entry := info.mmap[offset];
      var length := (entry.size + 4) % WORD_LIMIT;
      if entry.kind == 1 {
        assert entry in es;
        var end := (entry.addrLow + entry.lenLow) % WORD_LIMIT;
        if end > maxEnd {
          maxEnd := end;
        }
      }
      i := i + 1;
      if length == 0 {
        break;
      }
      offset := (offset + length) % WORD_LIMIT;
    }
    assert i == |es| && es[..i] == es;
  }

  lemma MaxEndNone(es: seq<MmapEntry>)
    requires es == []
    ensures MaxEnd(es) == 0
  {
  }

  method DetectMemoryBytes(magic: nat, infoAddr: nat, info: BootInfo, ghost es: seq<MmapEntry>)
    returns (bytes: nat)
    requires WellFormedMap(info, es)
    ensures bytes == MemoryBytes(magic, infoAddr, info, es)
  {
    if magic != MULTIBOOT_MAGIC || infoAddr == 0 {
      return 67108864;
    }
    if HasMap(info) {
      var maxEnd := ScanMap(info, es);
      if maxEnd != 0 {
        return maxEnd;
      }
    }
    if Bit(info.flags, 0) {
      var totalKb := (info.memLower + info.memUpper) % WORD_LIMIT;
      if totalKb != 0 {
        return totalKb * 1024 % WORD_LIMIT;
      }
    }
    return 67108864;
  }

  // ---------------------------------------------------------------- the bitmap after memory_init

  /** The memory size memory_init settles on: capped at 512 MiB and rounded up to a page. */
  function TotalBytes(magic: nat, infoAddr: nat, info: BootInfo, es: seq<MmapEntry>): nat {
    var bytes := MemoryBytes(magic, infoAddr, info, es);
    AlignUp32(if bytes > MAX_PHYS_MEM then MAX_PHYS_MEM else bytes, PAGE_SIZE)
  }

  /** The settled size is the memory found, cut at 512 MiB and completed to a whole page. */
  lemma TotalBytesMeans(magic: nat, infoAddr: nat, info: BootInfo, es: seq<MmapEntry>)
    ensures var bytes, total := MemoryBytes(magic, infoAddr, info, es), TotalBytes(magic, infoAddr, info, es);
            && (bytes >= 512 * 1024 * 1024 ==> total == 512 * 1024 * 1024)
            && (bytes < 512 * 1024 * 1024 ==> total % 4096 == 0 && bytes <= total < bytes + 4096)
  {
    hide MemoryBytes;
    var bytes := MemoryBytes(magic, infoAddr, info, es);
    var capped := if bytes > MAX_PHYS_MEM then MAX_PHYS_MEM else bytes;
    RoundDown(capped + PAGE_SIZE - 1);
    assert AlignUp32(capped, PAGE_SIZE) == capped + 4095 - (capped + 4095) % PAGE_SIZE;
  }

  /** Address a is usable memory: in a region of type 1, or above 1 MiB when there is no map. */
  ghost predicate UsableByte(a: nat, magic: nat, infoAddr: nat, info: BootInfo, es: seq<MmapEntry>, total: nat) {
    if magic == 0x2BAD_B002 && infoAddr != 0 && HasMap(info)
    then exists e :: e in es && e.kind == 1 && e.addrLow <= a < e.addrLow + e.lenLow
    else 0x10_0000 <= a < total
  }

  /** The frame address a lies in. */
  function FrameAt(a: nat): nat { a / 4096 }

  /** Frame f holds a byte of usable memory. */
  ghost predicate HoldsMemory(f: nat, magic: nat, infoAddr: nat, info: BootInfo, es: seq<MmapEntry>, total: nat) {
    exists a: nat :: FrameAt(a) == f && UsableByte(a, magic, infoAddr, info, es, total)
  }

  /** A frame and a range overlap exactly if they share a byte. */
  lemma OverlapsIsSharedByte(f: nat, start: nat, size: nat)
    ensures Overlaps(f, start, size) <==> exists a: nat :: FrameAt(a) == f && start <= a < start + size
  {
    if Overlaps(f, start, size) {
      var a := if start < f * PAGE_SIZE then f * PAGE_SIZE else start;
      assert FrameAt(a) == f;
    }
    if a: nat :| FrameAt(a) == f && start <= a < start + size {
      assert f * PAGE_SIZE <= a < (f + 1) * PAGE_SIZE;
    }
  }

  /** Frame f shares a byte with a usable region of the map. */
  ghost predicate Backed(f: nat, es: seq<MmapEntry>) {
    exists e :: e in es && e.kind == 1 && Overlaps(f, e.addrLow, e.lenLow)
  }

  /** Frame f shares a byte with memory memory_init keeps for itself. */
  predicate Kept(f: nat, kernelEnd: nat) {
    || Overlaps(f, 0, MEGABYTE)
    || (kernelEnd > MEGABYTE && Overlaps(f, MEGABYTE, kernelEnd - MEGABYTE))
    || Overlaps(f, USER_PROGRAM_BASE, USER_PROGRAM_MAX_SIZE)
    || Overlaps(f, USER_STACK_TOP - USER_STACK_SIZE, USER_STACK_SIZE)
  }

  lemma AllOnes(k: nat)
    requires k < 32
    ensures Bit(0xFFFF_FFFF, k)
  {
    SetWord(0, 0);
    ShrZero(k);
    BitOfNot(0, 32, k);
  }

  /** memset(g_frame_bitmap, 0xFF): every frame is in use. */
  method FillBitmap(bm: FrameBitmap)
    requires bm.words.Length == BITMAP_WORDS
    modifies bm.words
    ensures forall i :: 0 <= i < BITMAP_WORDS ==> bm.words[i] == 0xFFFF_FFFF
    ensures forall f :: 0 <= f < MAX_FRAMES ==> f in bm.Used()
  {
    var i := 0;
    while i < BITMAP_WORDS
      invariant 0 <= i <= BITMAP_WORDS
      invariant forall j :: 0 <= j < i ==> bm.words[j] == 0xFFFF_FFFF
    {
      bm.words[i] := 0xFFFF_FFFF;
      i := i + 1;
    }
    forall f | 0 <= f < MAX_FRAMES ensures f in bm.Used() {
      AllOnes(f % 32);
      assert bm.InUse(f);
    }
  }

  lemma ClippedRegion(f: nat, e: MmapEntry, size: nat, total: nat)
    requires e.addrLow < total && e.addrLow + e.lenLow < WORD_LIMIT
    requires total % PAGE_SIZE == 0 && total <= MAX_PHYS_MEM && f < total / PAGE_SIZE
    requires size == if e.addrLow + e.lenLow > total then total - e.addrLow else e.lenLow
    ensures Overlaps(f, e.addrLow, size) <==> Overlaps(f, e.addrLow, e.lenLow)
  {
    assert (f + 1) * PAGE_SIZE <= total;
  }

  /** The loop of memory_init over the map: it frees exactly the frames a usable region touches. */
  method FreeMap(bm: FrameBitmap, info: BootInfo, ghost es: seq<MmapEntry>)
    requires bm.Valid() && WellFormedMap(info, es) && HasMap(info)
    modifies bm.words
    ensures bm.Valid()
    ensures forall f :: f in bm.Used() <==> f in old(bm.Used()) && !(f < bm.totalFrames && Backed(f, es))
  {
    var offset := 0;
    ghost var i := 0;
    assert es[0..] == es && es[..0] == [];
    while offset < info.mmapLength
      invariant bm.Valid() && 0 <= i <= |es| && 0 <= offset && Chain(info, offset, es[i..])
      invariant forall f :: f in bm.Used() <==> f in old(bm.Used()) && !(f < bm.totalFrames && Backed(f, es[..i]))
      decreases |es| - i
    {
      ChainStep(info, offset, es, i);
      var entry := info.mmap[offset];
      var length := (entry.size + 4) % WORD_LIMIT;
      FreeEntry(bm, entry);
      i := i + 1;
      if length == 0 {
        break;
      }
      offset := (offset + length) % WORD_LIMIT;
    }
    assert es[..i] == es;
  }

  method FreeEntry(bm: FrameBitmap, entry: MmapEntry)
    requires bm.Valid()
    requires entry.kind == 1 ==> entry.addrLow + entry.lenLow < WORD_LIMIT
    modifies bm.words
    ensures bm.Valid()
    ensures forall f :: f in bm.Used() <==>
              f in old(bm.Used()) &&
              !(f < bm.totalFrames && entry.kind == 1 && Overlaps(f, entry.addrLow, entry.lenLow))
  {
    hide bm.Used, Visited;
    if entry.kind == 1 {
      var start := entry.addrLow;
      var size := entry.lenLow;
      if start < bm.totalBytes {
        if (start + size) % WORD_LIMIT > bm.totalBytes {
          size := bm.totalBytes - start;
        }
        VisitedIsOverlap(start, size, bm.totalBytes);
        forall f: nat | f < bm.totalFrames
          ensures Overlaps(f, start, size) <==> Overlaps(f, start, entry.lenLow)
        {
          ClippedRegion(f, entry, size, bm.totalBytes);
        }
        bm.FreeRange(start, size);
      }
    }
  }

  /** reserve_range on a range that does not wrap: exactly the overlapped frames become used. */
  method Reserve(bm: FrameBitmap, start: nat, size: nat)
    requires bm.Valid() && start + size + PAGE_SIZE <= WORD_LIMIT && start < WORD_LIMIT && size < WORD_LIMIT
    modifies bm.words
    ensures bm.Valid()
    ensures forall f :: f in bm.Used() <==> f in old(bm.Used()) || (0 <= f < bm.totalFrames && Overlaps(f, start, size))
  {
    hide Visited;
    VisitedIsOverlap(start, size, bm.totalBytes);
    bm.ReserveRange(start, size);
  }

  /** The four reservations of memory_init. */
  method ReserveKept(bm: FrameBitmap, kernelEnd: nat)
    requires bm.Valid() && kernelEnd + PAGE_SIZE <= WORD_LIMIT
    modifies bm.words
    ensures bm.Valid()
    ensures forall f :: f in bm.Used() <==> f in old(bm.Used()) || (0 <= f < bm.totalFrames && Kept(f, kernelEnd))
  {
    hide bm.Used, Overlaps;
    Reserve(bm, 0, MEGABYTE);
    if kernelEnd > MEGABYTE {
      Reserve(bm, MEGABYTE, kernelEnd - MEGABYTE);
    }
    Reserve(bm, USER_PROGRAM_BASE, USER_PROGRAM_MAX_SIZE);
    Reserve(bm, USER_STACK_TOP - USER_STACK_SIZE, USER_STACK_SIZE);
  }

  /** Frame f is usable memory: touched by a region of the map, or above 1 MiB when there is no map. */
  ghost predicate Usable(f: nat, magic: nat, infoAddr: nat, info: BootInfo, es: seq<MmapEntry>, total: nat) {
    if magic == MULTIBOOT_MAGIC && infoAddr != 0 && HasMap(info) then Backed(f, es)
    else total > MEGABYTE && Overlaps(f, MEGABYTE, total - MEGABYTE)
  }

  lemma UsableIsMemory(f: nat, magic: nat, infoAddr: nat, info: BootInfo, es: seq<MmapEntry>, total: nat)
    ensures Usable(f, magic, infoAddr, info, es, total) <==> HoldsMemory(f, magic, infoAddr, info, es, total)
  {
    hide Overlaps, FrameAt;
    if magic == MULTIBOOT_MAGIC && infoAddr != 0 && HasMap(info) {
      if Backed(f, es) {
        var e :| e in es && e.kind == 1 && Overlaps(f, e.addrLow, e.lenLow);
        OverlapsIsSharedByte(f, e.addrLow, e.lenLow);
        var a: nat :| FrameAt(a) == f && e.addrLow <= a < e.addrLow + e.lenLow;
        assert UsableByte(a, magic, infoAddr, info, es, total);
      }
      if HoldsMemory(f, magic, infoAddr, info, es, total) {
        var a: nat :| FrameAt(a) == f && UsableByte(a, magic, infoAddr, info, es, total);
        var e :| e in es && e.kind == 1 && e.addrLow <= a < e.addrLow + e.lenLow;
        OverlapsIsSharedByte(f, e.addrLow, e.lenLow);
      }
    } else {
      OverlapsIsSharedByte(f, MEGABYTE, if total > MEGABYTE then total - MEGABYTE else 0);
      if total > MEGABYTE && Overlaps(f, MEGABYTE, total - MEGABYTE) {
        var a: nat :| FrameAt(a) == f && MEGABYTE <= a < MEGABYTE + (total - MEGABYTE);
        assert UsableByte(a, magic, infoAddr, info, es, total);
      }
      if HoldsMemory(f, magic, infoAddr, info, es, total) {
        var a: nat :| FrameAt(a) == f && UsableByte(a, magic, infoAddr, info, es, total);
        assert MEGABYTE <= a < MEGABYTE + (total - MEGABYTE);
      }
    }
  }

  method FreeAboveMegabyte(bm: FrameBitmap)
    requires bm.Valid()
    modifies bm.words
    ensures bm.Valid()
    ensures forall f :: f in bm.Used() <==>
              f in old(bm.Used()) &&
              !(f < bm.totalFrames && bm.totalBytes > MEGABYTE && Overlaps(f, MEGABYTE, bm.totalBytes - MEGABYTE))
  {
    hide bm.Used, Visited;
    var size := if bm.totalBytes > MEGABYTE then bm.totalBytes - MEGABYTE else 0;
    VisitedIsOverlap(MEGABYTE, size, bm.totalBytes);
    bm.FreeRange(MEGABYTE, size);
  }

  lemma TotalIsPages(magic: nat, infoAddr: nat, info: BootInfo, es: seq<MmapEntry>)
    ensures var total := TotalBytes(magic, infoAddr, info, es);
            total % PAGE_SIZE == 0 && total <= MAX_PHYS_MEM && total / PAGE_SIZE * PAGE_SIZE == total
  {
    var bytes := MemoryBytes(magic, infoAddr, info, es);
    var capped := if bytes > MAX_PHYS_MEM then MAX_PHYS_MEM else bytes;
    RoundDown(capped + PAGE_SIZE - 1);
    assert AlignUp32(capped, PAGE_SIZE) == capped + 4095 - (capped + 4095) % PAGE_SIZE;
  }

  /**
   The frame half of memory_init.  Afterwards a frame is free exactly when it lies
   below the frame count, is usable memory, and touches nothing that is kept.
   */
  method InitFrames(bm: FrameBitmap, magic: nat, infoAddr: nat, info: BootInfo, kernelEnd: nat,
                    ghost es: seq<MmapEntry>)
    requires bm.words.Length == BITMAP_WORDS && WellFormedMap(info, es) && kernelEnd + PAGE_SIZE <= WORD_LIMIT
    modifies bm, bm.words
    ensures bm.Valid() && bm.totalBytes == TotalBytes(magic, infoAddr, info, es)
    ensures 0 in bm.Used()
    ensures forall f :: 0 <= f < MAX_FRAMES ==>
              (f !in bm.Used() <==>
                && f < bm.totalFrames
                && Usable(f, magic, infoAddr, info, es, bm.totalBytes)
                && !Kept(f, kernelEnd))
  {
    var bytes := DetectMemoryBytes(magic, infoAddr, info, es);
    if bytes > MAX_PHYS_MEM {
      bytes := MAX_PHYS_MEM;
    }
    bm.totalBytes := AlignUp32(bytes, PAGE_SIZE);
    TotalIsPages(magic, infoAddr, info, es);
    assert Kept(0, kernelEnd);
    bm.totalFrames := bm.totalBytes / PAGE_SIZE;
    FillBitmap(bm);
    if magic == MULTIBOOT_MAGIC && infoAddr != 0 {
      if HasMap(info) {
        FreeMap(bm, info, es);
      } else {
        FreeAboveMegabyte(bm);
      }
    } else {
      FreeAboveMegabyte(bm);
    }
    ReserveKept(bm, kernelEnd);
  }
}
