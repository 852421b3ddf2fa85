/**
 load_elf_program_from_vfs on top of the heap allocator and the paging code.
 */
module ElfLoader {
  import opened Words
  import opened Bytes
  import opened HeapLayout
  import opened HeapRuns
  import opened HeapMemory
  import opened KernelHeap
  import opened PageEntries
  import opened AddressSpace
  import opened KernelPaging
  import opened MemoryInit
  import opened ElfImage

  datatype Node = Node(isFile: bool, size: nat)

  /** The image buffer at address `image` holds `data`. */
  ghost predicate ImageAt(heap: Heap, image: nat, data: seq<byte>)
    reads heap, heap.mem
  {
    && heap.mem.Length == HEAP_SIZE
    && heap.base <= image && image - heap.base + |data| <= HEAP_SIZE
    && heap.mem[image - heap.base..image - heap.base + |data|] == data
  }

  method ReadByte(heap: Heap, image: nat, o: nat, ghost data: seq<byte>) returns (v: byte)
    requires ImageAt(heap, image, data) && o < |data|
    ensures v == data[o]
  {
    v := heap.mem[image - heap.base + o];
    assert v == heap.mem[image - heap.base..image - heap.base + |data|][o];
  }

  method ReadHalf(heap: Heap, image: nat, o: nat, ghost data: seq<byte>) returns (v: nat)
    requires ImageAt(heap, image, data) && o + 2 <= |data|
    ensures v == HalfAt(data, o)
  {
    var b0 := ReadByte(heap, image, o, data);
    var b1 := ReadByte(heap, image, o + 1, data);
    v := b0 as int + 256 * b1 as int;
  }

  method ReadWord(heap: Heap, image: nat, o: nat, ghost data: seq<byte>) returns (v: nat)
    requires ImageAt(heap, image, data) && o + 4 <= |data|
    ensures v == WordAt(data, o) && v < WORD_LIMIT
  {
    var b0 := ReadByte(heap, image, o, data);
    var b1 := ReadByte(heap, image, o + 1, data);
    var b2 := ReadByte(heap, image, o + 2, data);
    var b3 := ReadByte(heap, image, o + 3, data);
    v := b0 as int + 256 * b1 as int + 65536 * b2 as int + 16777216 * b3 as int;
  }

  /** The header tests between vfs_read and the segment loop. */
  method CheckHeader(heap: Heap, image: nat, size: nat, ghost data: seq<byte>) returns (good: bool)
    requires ImageAt(heap, image, data) && |data| == size && EHDR_SIZE <= size
    ensures good == HeaderOk(data)
  {
    hide WordAt, HalfAt, ImageAt;
    var magic := ReadWord(heap, image, 0, data);
    if magic != ELF32_MAGIC {
      return false;
    }
    var class_ := ReadByte(heap, image, 4, data);
    var encoding := ReadByte(heap, image, 5, data);
    var ident := ReadByte(heap, image, 6, data);
    if class_ != 1 || encoding != 1 || ident != 1 {
      return false;
    }
    var machine := ReadHalf(heap, image, 18, data);
    var version := ReadWord(heap, image, 20, data);
    if machine != 3 || version != 1 {
      return false;
    }
    var ehsize := ReadHalf(heap, image, 40, data);
    if ehsize != EHDR_SIZE {
      return false;
    }
    var phentsize := ReadHalf(heap, image, 42, data);
    if phentsize != PHDR_SIZE {
      return false;
    }
    var phoff := ReadWord(heap, image, 28, data);
    var phnum := ReadHalf(heap, image, 44, data);
    var end := (phoff + phnum * PHDR_SIZE) % WORD_LIMIT;
    return end >= phoff && end <= size;
  }

  method ReadSegment(heap: Heap, image: nat, o: nat, ghost data: seq<byte>) returns (s: Segment)
    requires ImageAt(heap, image, data) && o + PHDR_SIZE <= |data|
    ensures s == SegmentAt(data, o) && FitsWords32(s)
  {
    hide WordAt, ImageAt;
    var kind := ReadWord(heap, image, o, data);
    var offset := ReadWord(heap, image, o + 4, data);
    var vaddr := ReadWord(heap, image, o + 8, data);
    var filesz := ReadWord(heap, image, o + 16, data);
    var memsz := ReadWord(heap, image, o + 20, data);
    s := Segment(kind, offset, vaddr, filesz, memsz);
  }

  /** memcpy and memset of one accepted segment. */
  method CopySegment(heap: Heap, user: array<byte>, image: nat, s: Segment, ghost data: seq<byte>)
    requires ImageAt(heap, image, data) && user.Length == USER_PROGRAM_MAX_SIZE && user != heap.mem
    requires s.kind == PT_LOAD && FitsWords32(s) && |data| < WORD_LIMIT && Accepts(s, |data|)
    modifies user
    ensures user[..] == Place(old(user[..]), s, data)
  {
    AcceptsIsExact(s, |data|);
    ghost var before := user[..];
    if s.filesz != 0 {
      Memcpy(user, s.vaddr - USER_PROGRAM_BASE, heap.mem, image - heap.base + s.offset, s.filesz);
    }
    if s.memsz > s.filesz {
      Memset(user, s.vaddr + s.filesz - USER_PROGRAM_BASE, 0, s.memsz - s.filesz);
    }
    forall x | 0 <= x < USER_PROGRAM_MAX_SIZE ensures user[x] == Place(before, s, data)[x] {
      PlaceByte(before, s, data, x + USER_PROGRAM_BASE);
      if Holds(s, data, x + USER_PROGRAM_BASE) && x + USER_PROGRAM_BASE - s.vaddr < s.filesz {
        var y := s.offset + (x + USER_PROGRAM_BASE - s.vaddr);
        assert data[y] == heap.mem[image - heap.base..image - heap.base + |data|][y];
      }
    }
  }

  /** One turn of the segment loop for program header i; false if the header is bad. */
  method LoadOne(heap: Heap, space: KernelSpace, user: array<byte>, image: nat, size: nat, s: Segment,
                 ghost data: seq<byte>)
    returns (ok: bool)
    requires ImageAt(heap, image, data) && |data| == size < WORD_LIMIT && FitsWords32(s)
    requires space.Valid() && user.Length == USER_PROGRAM_MAX_SIZE && user != heap.mem
    modifies user, space.ram, space`marks
    ensures space.Valid()
    ensures ok <==> !(s.kind == PT_LOAD && !Accepts(s, size))
    ensures !ok ==> user[..] == old(user[..]) && space.marks == old(space.marks)
    ensures ok ==> user[..] == Place(old(user[..]), s, data)
    ensures ok ==> space.marks == old(space.marks) +
                     if s.kind == PT_LOAD && s.memsz != 0 then [Range(s.vaddr, RoundedSize(s.memsz))] else []
  {
    hide ImageAt, Place;
    if s.kind != PT_LOAD {
      NothingPlaced(user[..], s, data);
      return true;
    }
    if (s.offset + s.filesz) % WORD_LIMIT < s.offset {
      return false;
    }
    if (s.offset + s.filesz) % WORD_LIMIT > size {
      return false;
    }
    if s.memsz < s.filesz {
      return false;
    }
    if !ValidateSegment(s.vaddr, s.memsz) {
      return false;
    }
    if s.memsz != 0 {
      space.MarkUserRange(s.vaddr, AlignUp32(s.memsz, PAGE_SIZE));
    }
    CopySegment(heap, user, image, s, data);
    return true;
  }

  lemma NothingPlaced(area: seq<byte>, s: Segment, data: seq<byte>)
    requires |area| == USER_PROGRAM_MAX_SIZE && s.kind != PT_LOAD
    ensures Place(area, s, data) == area
  {
  }

  /** The segment loop: every header up to the first bad one takes effect, in order. */
  method LoadSegments(heap: Heap, space: KernelSpace, user: array<byte>, image: nat, size: nat, ghost data: seq<byte>)
    returns (ok: bool)
    requires ImageAt(heap, image, data) && |data| == size < WORD_LIMIT && Parsable(data)
    requires space.Valid() && user.Length == USER_PROGRAM_MAX_SIZE && user != heap.mem
    modifies user, space.ram, space`marks
    ensures space.Valid() && ok == (GoodCount(data, 0) == PhNum(data))
    ensures user[..] == Fold(old(user[..]), data, GoodCount(data, 0))
    ensures space.marks == old(space.marks) + Marks(data, GoodCount(data, 0))
  {
    hide Place, Accepts, WordAt, HalfAt;
    var phoff := ReadWord(heap, image, 28, data);
    var phnum := ReadHalf(heap, image, 44, data);
    var i := 0;
    while i < phnum
      invariant 0 <= i <= phnum && GoodCount(data, i) == GoodCount(data, 0)
      invariant ImageAt(heap, image, data) && space.Valid()
      invariant user[..] == Fold(old(user[..]), data, i)
      invariant space.marks == old(space.marks) + Marks(data, i)
    {
      SegmentInside(data, i);
      var s := ReadSegment(heap, image, phoff + i * PHDR_SIZE, data);
      var good := LoadOne(heap, space, user, image, size, s, data);
      if !good {
        return false;
      }
      i := i + 1;
    }
    return true;
  }

  lemma SegmentInside(data: seq<byte>, i: nat)
    requires Parsable(data) && i < PhNum(data)
    ensures PhOff(data) + i * PHDR_SIZE + PHDR_SIZE <= |data|
  {
  }

  /** The loader gets as far as the segment loop. */
  ghost predicate GetsToSegments(node: Node, L: Layout, data: seq<byte>, readOk: bool) {
    && node.isFile && node.size >= EHDR_SIZE
    && !NoGap(L, Need(node.size))
    && readOk && HeaderOk(data)
  }

  lemma HeaderOkParses(data: seq<byte>)
    requires HeaderOk(data) && |data| < WORD_LIMIT
    ensures Parsable(data)
  {
    TableFitsIsExact(PhOff(data), PhNum(data), |data|);
  }

  /** Page p translates to itself, and user code may write to it at both levels. */
  ghost predicate UserPage(space: KernelSpace, p: nat)
    reads space, space.ram
  {
    Translate(space.ram[..], space.kd, p) == Some(p) && UserMayWrite(space.ram[..], space.kd, p)
  }

  /** Every page of the segments loaded from the first n program headers is open to user code. */
  ghost predicate SegmentsOpen(space: KernelSpace, f: seq<byte>, n: nat)
    requires Parsable(f) && n <= PhNum(f)
    reads space, space.ram
  {
    forall i, p | 0 <= i < n && 0 <= p && Loads(SegmentNo(f, i), f) && Touches(SegmentNo(f, i), p) :: UserPage(space, p)
  }

  lemma MarkedIsUserPage(space: KernelSpace, p: nat)
    requires space.Valid() && p < MAP_PAGES && Marked(space.marks, p)
    ensures UserPage(space, p)
  {
    hide PagesIn;
    space.SpaceMeans(p);
    assert p in UserPages(space.marks);
  }

  lemma SegmentPageInRange(s: Segment, f: seq<byte>, p: nat)
    requires Loads(s, f) && Touches(s, p)
    ensures p < MAP_PAGES
  {
  }

  /** The marks of the segment loop open every page of every loaded segment. */
  lemma MarksOpenSegments(space: KernelSpace, before: seq<Range>, f: seq<byte>, n: nat)
    requires space.Valid() && Parsable(f) && n <= PhNum(f) && space.marks == before + Marks(f, n)
    ensures SegmentsOpen(space, f, n)
  {
    hide SegmentNo, Loads, Touches, Marks, UserPage, Marked;
    forall i, p | 0 <= i < n && 0 <= p && Loads(SegmentNo(f, i), f) && Touches(SegmentNo(f, i), p)
      ensures UserPage(space, p)
    {
      SegmentPagesMarked(before, f, n, i, p);
      SegmentPageInRange(SegmentNo(f, i), f, p);
      MarkedIsUserPage(space, p);
    }
  }

  /**
   The whole loader.  `data` is what the buffer holds after vfs_read and `readOk` its
   verdict.  Every exit path leaves the heap layout as it was, keeps every live payload,
   and writes nothing outside the user area; success means the complete fold.
   */
  method LoadElf(node: Node, heap: Heap, space: KernelSpace, user: array<byte>, data: seq<byte>, readOk: bool)
    returns (ok: bool, entry: nat)
    requires heap.Valid() && space.Valid() && user.Length == USER_PROGRAM_MAX_SIZE && user != heap.mem
    requires node.size < WORD_LIMIT && !Undersized(heap.blocks, node.size) && |data| == node.size
    modifies heap, heap.mem, user, space.ram, space`marks
    ensures heap.Valid() && space.Valid()
    ensures heap.blocks == old(heap.blocks) && LiveBytesKept(old(heap.mem[..]), heap.mem[..], heap.blocks)
    ensures !GetsToSegments(node, old(heap.blocks), data, readOk) ==>
              !ok && user[..] == old(user[..]) && space.marks == old(space.marks)
    ensures GetsToSegments(node, old(heap.blocks), data, readOk) ==>
              && Parsable(data)
              && ok == (GoodCount(data, 0) == PhNum(data))
              && user[..] == Fold(old(user[..]), data, GoodCount(data, 0))
              && space.marks == old(space.marks) + Marks(data, GoodCount(data, 0))
              && SegmentsOpen(space, data, GoodCount(data, 0))
    ensures ok ==> entry == EntryPoint(data)
  {
    hide NoGap, GapFits, Need, HeaderOk, SegmentsOpen, WellFormed, Fold, Marks, WordAt, HalfAt, Links, Undersized,
         Corrupts, Allocates;
    ok, entry := false, 0;
    if !node.isFile || node.size < EHDR_SIZE {
      return;
    }
    ghost var L := heap.blocks;
    ghost var m0 := heap.mem[..];
    heap.FitsMeansSized(L, node.size);
    var image := heap.Kmalloc(node.size);
    if image == NULL {
      return;
    }
    heap.Fill(image, data, L, m0);   // vfs_read
    if readOk {
      var good := CheckHeader(heap, image, node.size, data);
      if good {
        HeaderOkParses(data);
        ok := LoadSegments(heap, space, user, image, node.size, data);
        MarksOpenSegments(space, old(space.marks), data, GoodCount(data, 0));
        if ok {
          entry := ReadWord(heap, image, 24, data);
        }
      }
    }
    heap.GiveBack(image, node.size, L, m0);
  }
}
