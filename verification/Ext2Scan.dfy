/**
 ext2_lookup, find_inode_in_dir and ext2_ls: three scans over the blocks of a directory.
 */
module Ext2Scan {
  import opened Words
  import opened Bytes
  import opened CStrings
  import opened HeapLayout
  import opened HeapRuns
  import opened KernelHeap
  import opened Ext2Fs
  import opened Ext2Dir

  // ---------------------------------------------------------------- blocks of a directory

  /** (i_size + block_size - 1) / block_size with the 32-bit sum. */
  function BlockCount(fs: Fs, ino: Inode): nat
    requires fs.blockSize > 0
  {
    (ino.size + fs.blockSize - 1) % WORD_LIMIT / fs.blockSize
  }

  /** Every block id an inode leads to can be read. */
  ghost predicate Readable(fs: Fs, ino: Inode)
    requires Mounted(fs) && |ino.blocks| == 15
  {
    && (forall i :: 0 <= i <= DIRECT ==> ino.blocks[i] <= MAX_BLOCK)
    && (forall i :: 0 <= i < fs.blockSize / 4 ==> IndirectEntry(fs, ino, i) <= MAX_BLOCK)
  }

  /** Entry i of the single indirect block, 0 if there is no such block. */
  ghost function IndirectEntry(fs: Fs, ino: Inode, i: nat): nat
    requires Mounted(fs) && |ino.blocks| == 15 && i < fs.blockSize / 4
  {
    if ino.blocks[DIRECT] == 0 || ino.blocks[DIRECT] > MAX_BLOCK then 0
    else WordAt(DiskBlock(fs, ino.blocks[DIRECT]), 4 * i)
  }

  /** The scan goes past block index blk; `canAlloc` says whether the heap has room for the indirect buffer. */
  predicate Continues(fs: Fs, ino: Inode, blk: nat, canAlloc: bool)
    requires |ino.blocks| == 15
  {
    blk < DIRECT || (ino.blocks[DIRECT] != 0 && canAlloc && blk - DIRECT < fs.blockSize / 4)
  }

  ghost function BlockId(fs: Fs, ino: Inode, blk: nat): nat
    requires Mounted(fs) && |ino.blocks| == 15 && Continues(fs, ino, blk, true)
  {
    if blk < DIRECT then ino.blocks[blk] else IndirectEntry(fs, ino, blk - DIRECT)
  }

  /** The live entries of the directory from block index blk on, in block order. */
  ghost function EntriesFrom(fs: Fs, ino: Inode, tail: seq<byte>, canAlloc: bool, blk: nat): (es: seq<DirEntry>)
    requires Mounted(fs) && |ino.blocks| == 15 && Readable(fs, ino) && |tail| >= SLACK
    ensures Live(es)
    decreases BlockCount(fs, ino) - blk
  {
    if blk >= BlockCount(fs, ino) || !Continues(fs, ino, blk, canAlloc) then []
    else BlockEntries(fs, BlockId(fs, ino, blk), tail) + EntriesFrom(fs, ino, tail, canAlloc, blk + 1)
  }

  /** The entries of one block; a hole has none. */
  ghost function BlockEntries(fs: Fs, id: nat, tail: seq<byte>): (es: seq<DirEntry>)
    requires Mounted(fs) && id <= MAX_BLOCK && |tail| >= SLACK
    ensures Live(es)
  {
    if id == 0 then [] else Records(DiskBlock(fs, id) + tail, fs.blockSize, 0)
  }

  /** All live entries of directory n; a file that is no directory has none. */
  ghost function DirEntries(fs: Fs, n: nat, tail: seq<byte>, canAlloc: bool): (es: seq<DirEntry>)
    requires Scannable(fs, n) && |tail| >= SLACK
    ensures Live(es)
  {
    if IsDir(InodeAt(fs, n)) then EntriesFrom(fs, InodeAt(fs, n), tail, canAlloc, 0) else []
  }

  /** Inode n exists, and if it is a directory the block ids it leads to can be read. */
  ghost predicate Scannable(fs: Fs, n: nat) {
    Mounted(fs) && 1 <= n <= fs.inodesCount && (IsDir(InodeAt(fs, n)) ==> Readable(fs, InodeAt(fs, n)))
  }

  // ---------------------------------------------------------------- one block

  /** The name bytes of the record at offset o, and whether the record is live. */
  predicate Occupied(buf: seq<byte>, o: nat)
    requires o + SLACK <= |buf|
  {
    WordAt(buf, o) != 0 && buf[o + 6] > 0
  }

  function NameAt(buf: seq<byte>, o: nat): seq<byte>
    requires o + SLACK <= |buf|
  {
    buf[o + 8..o + 8 + buf[o + 6] as nat]
  }

  /** One step of a record scan, in terms of each of the three results. */
  lemma ScanStep(buf: seq<byte>, size: nat, o: nat, name: seq<byte>)
    requires size + SLACK <= |buf| && o < size && 0 < RecLen(buf, o) <= size
    ensures var rest := Records(buf, size, o + RecLen(buf, o));
            var here := Records(buf, size, o);
            && LookupIn(here, name) ==
                 (if Occupied(buf, o) && CStr(NameAt(buf, o)) == name then WordAt(buf, o) else LookupIn(rest, name))
            && FindIn(here, name) ==
                 (if Occupied(buf, o) && NameAt(buf, o) == name then WordAt(buf, o) else FindIn(rest, name))
            && Listing(here) ==
                 (if Occupied(buf, o) then [(buf[o + 7] == 2, CStr(NameAt(buf, o)))] else []) + Listing(rest)
  {
    hide WordAt, HalfAt, CStr;
    var rest := Records(buf, size, o + RecLen(buf, o));
    var e := EntryAt(buf, o);
    LookupAppend(e, rest, name);
    FindAppend(e, rest, name);
    ListingAppend(e, rest);
    if Occupied(buf, o) {
      var d := e[0];
      assert e == [d] && e[1..] == [];
      assert LookupIn([], name) == 0 && FindIn([], name) == 0;
      assert Listing(e) == [(d.fileType == 2, CStr(d.name))] + Listing([]);
    }
  }

  lemma ScanStop(buf: seq<byte>, size: nat, o: nat, name: seq<byte>)
    requires size + SLACK <= |buf| && (o >= size || RecLen(buf, o) == 0 || RecLen(buf, o) > size)
    ensures var here := Records(buf, size, o);
            LookupIn(here, name) == 0 && FindIn(here, name) == 0 && Listing(here) == []
  {
  }

  method LookupBlock(buf: seq<byte>, size: nat, name: seq<byte>) returns (result: nat)
    requires size + SLACK <= |buf| && NulFree(name)
    ensures result == LookupIn(Records(buf, size, 0), name)
  {
    hide WordAt, HalfAt, Records, LookupIn, CStr;
    CStrOfNulFree(name);
    var offset := 0;
    while offset < size
      invariant 0 <= offset && LookupIn(Records(buf, size, 0), name) == LookupIn(Records(buf, size, offset), name)
      decreases size - offset
    {
      var recLen := RecLen(buf, offset);
      if recLen == 0 || recLen > size {
        break;
      }
      ScanStep(buf, size, offset, name);
      var inode, len := WordAt(buf, offset), buf[offset + 6] as nat;
      if inode != 0 && len > 0 {
        var c := Strcmp(buf[offset + 8..offset + 8 + len], name);
        if c == 0 {
          return inode;
        }
      }
      offset := offset + recLen;
    }
    ScanStop(buf, size, offset, name);
    return 0;
  }

  method FindBlock(buf: seq<byte>, size: nat, name: seq<byte>) returns (result: nat)
    requires size + SLACK <= |buf| && NulFree(name)
    ensures result == FindIn(Records(buf, size, 0), name)
  {
    hide WordAt, HalfAt, Records, FindIn, CStr;
    CStrOfNulFree(name);
    var offset := 0;
    while offset < size
      invariant 0 <= offset && FindIn(Records(buf, size, 0), name) == FindIn(Records(buf, size, offset), name)
      decreases size - offset
    {
      var recLen := RecLen(buf, offset);
      if recLen == 0 || recLen > size {
        break;
      }
      ScanStep(buf, size, offset, name);
      var inode, len := WordAt(buf, offset), buf[offset + 6] as nat;
      if inode != 0 && len > 0 {
        var c := Strncmp(buf[offset + 8..offset + 8 + len], name);
        var n := Strlen(name);
        if c == 0 && len == n {
          return inode;
        }
      }
      offset := offset + recLen;
    }
    ScanStop(buf, size, offset, name);
    return 0;
  }

  method ListBlock(buf: seq<byte>, size: nat) returns (out: seq<(bool, seq<byte>)>)
    requires size + SLACK <= |buf|
    ensures out == Listing(Records(buf, size, 0))
  {
    hide WordAt, HalfAt, Records, Listing, CStr;
    out := [];
    var offset := 0;
    while offset < size
      invariant 0 <= offset && Listing(Records(buf, size, 0)) == out + Listing(Records(buf, size, offset))
      decreases size - offset
    {
      var recLen := RecLen(buf, offset);
      if recLen == 0 || recLen > size {
        break;
      }
      ScanStep(buf, size, offset, []);
      var inode, len := WordAt(buf, offset), buf[offset + 6] as nat;
      if inode != 0 && len > 0 {
        out := out + [(buf[offset + 7] == 2, CStr(buf[offset + 8..offset + 8 + len]))];
      }
      offset := offset + recLen;
    }
    ScanStop(buf, size, offset, []);
  }

  // ---------------------------------------------------------------- all blocks

  lemma EntriesStep(fs: Fs, ino: Inode, tail: seq<byte>, canAlloc: bool, blk: nat, name: seq<byte>)
    requires Mounted(fs) && |ino.blocks| == 15 && Readable(fs, ino) && |tail| >= SLACK
    requires blk < BlockCount(fs, ino) && Continues(fs, ino, blk, canAlloc)
    ensures BlockId(fs, ino, blk) <= MAX_BLOCK
    ensures var here := EntriesFrom(fs, ino, tail, canAlloc, blk);
            var rest := EntriesFrom(fs, ino, tail, canAlloc, blk + 1);
            var es := BlockEntries(fs, BlockId(fs, ino, blk), tail);
            && LookupIn(here, name) == (if LookupIn(es, name) != 0 then LookupIn(es, name) else LookupIn(rest, name))
            && FindIn(here, name) == (if FindIn(es, name) != 0 then FindIn(es, name) else FindIn(rest, name))
            && Listing(here) == Listing(es) + Listing(rest)
  {
    hide LookupIn, FindIn, Listing, BlockEntries, WordAt;
    var rest := EntriesFrom(fs, ino, tail, canAlloc, blk + 1);
    var es := BlockEntries(fs, BlockId(fs, ino, blk), tail);
    LookupAppend(es, rest, name);
    FindAppend(es, rest, name);
    ListingAppend(es, rest);
  }

  lemma EntriesStop(fs: Fs, ino: Inode, tail: seq<byte>, canAlloc: bool, blk: nat, name: seq<byte>)
    requires Mounted(fs) && |ino.blocks| == 15 && Readable(fs, ino) && |tail| >= SLACK
    requires blk >= BlockCount(fs, ino) || !Continues(fs, ino, blk, canAlloc)
    ensures var here := EntriesFrom(fs, ino, tail, canAlloc, blk);
            LookupIn(here, name) == 0 && FindIn(here, name) == 0 && Listing(here) == []
  {
  }

  // ---------------------------------------------------------------- the indirect buffer

  /** The heap can supply a buffer for one block. */
  ghost predicate CanBuffer(L: Layout, blockSize: nat) { !NoGap(L, Need(blockSize)) }

  /** The heap has the layout L again, and no payload live in it has changed since its bytes were m. */
  ghost predicate HeapKept(heap: Heap, L: Layout, m: seq<byte>)
    reads heap, heap.mem
  {
    heap.Valid() && heap.blocks == L && LiveBytesKept(m, heap.mem[..], L)
  }

  lemma HeapKeptThen(heap: Heap, L: Layout, m: seq<byte>, m': seq<byte>)
    requires LiveBytesKept(m, m', L) && HeapKept(heap, L, m')
    ensures HeapKept(heap, L, m)
  {
    LiveKeptThen(m, m', heap.mem[..], L);
  }

  lemma HeapUntouched(heap: Heap)
    requires heap.Valid()
    ensures HeapKept(heap, heap.blocks, heap.mem[..])
  {
  }

  /**
   A scan that began on layout L has no indirect buffer yet, or one at `ptr` that was
   allocated since and holds the indirect block.
   */
  ghost predicate Buffered(heap: Heap, fs: Fs, ino: Inode, ptr: nat, L: Layout, m: seq<byte>)
    requires Mounted(fs) && |ino.blocks| == 15
    reads heap, heap.mem
  {
    && heap.Valid() && WellFormed(L) && LiveBytesKept(m, heap.mem[..], L)
    && (ptr == NULL ==> heap.blocks == L)
    && (ptr != NULL ==>
          && ino.blocks[DIRECT] != 0 && ino.blocks[DIRECT] in fs.disk && CanBuffer(L, fs.blockSize)
          && ptr >= heap.base + HEADER && Allocates(L, heap.blocks, fs.blockSize, ptr - heap.base - HEADER)
          && ptr - heap.base + fs.blockSize <= HEAP_SIZE
          && heap.mem[ptr - heap.base..ptr - heap.base + fs.blockSize] == DiskBlock(fs, ino.blocks[DIRECT]))
  }

  /** The first use of the indirect block: allocate a buffer and read the block into it. */
  method LoadIndirectBlock(fs: Fs, ino: Inode, heap: Heap, ghost L: Layout, ghost m: seq<byte>) returns (ptr: nat)
    requires Mounted(fs) && |ino.blocks| == 15 && Readable(fs, ino) && ino.blocks[DIRECT] != 0
    requires Buffered(heap, fs, ino, NULL, L, m)
    modifies heap, heap.mem
    ensures Buffered(heap, fs, ino, ptr, L, m) && (ptr == NULL <==> !CanBuffer(L, fs.blockSize))
  {
    hide NoGap, Allocates, Need, WellFormed, Corrupts;
    ghost var m1 := heap.mem[..];
    assert ino.blocks[DIRECT] <= MAX_BLOCK;
    NotClobbered(L, fs.blockSize);
    ptr := heap.Kmalloc(fs.blockSize);
    LiveKeptThen(m, m1, heap.mem[..], L);
    if ptr != NULL {
      heap.Fill(ptr, DiskBlock(fs, ino.blocks[DIRECT]), L, m);
    }
  }

  lemma NotClobbered(L: Layout, size: nat)
    requires size <= 4096
    ensures !Corrupts(L, size)
  {
  }

  lemma WordInside(m: seq<byte>, o: nat, n: nat, i: nat)
    requires o + n <= |m| && i + 4 <= n
    ensures WordAt(m, o + i) == WordAt(m[o..o + n], i)
  {
  }

  /** The block-id selection at the head of each scan loop; the indirect block is read once. */
  method SelectBlock(fs: Fs, ino: Inode, blk: nat, heap: Heap, indirect: nat, ghost L: Layout, ghost m: seq<byte>)
    returns (stop: bool, id: nat, indirect': nat)
    requires Mounted(fs) && |ino.blocks| == 15 && Readable(fs, ino)
    requires Buffered(heap, fs, ino, indirect, L, m)
    modifies heap, heap.mem
    ensures Buffered(heap, fs, ino, indirect', L, m)
    ensures stop <==> !Continues(fs, ino, blk, CanBuffer(L, fs.blockSize))
    ensures !stop ==> id == BlockId(fs, ino, blk) && id <= MAX_BLOCK
  {
    hide CanBuffer, Allocates, WellFormed, WordAt;
    stop, id, indirect' := false, 0, indirect;
    if blk < DIRECT {
      id := ino.blocks[blk];
      return;
    }
    if ino.blocks[DIRECT] == 0 {
      stop := true;
      return;
    }
    if indirect' == NULL {
      indirect' := LoadIndirectBlock(fs, ino, heap, L, m);
      if indirect' == NULL {
        stop := true;
        return;
      }
    }
    var idx := blk - DIRECT;
    if idx >= fs.blockSize / 4 {
      stop := true;
      return;
    }
    assert IndirectEntry(fs, ino, idx) <= MAX_BLOCK;
    WordInside(heap.mem[..], indirect' - heap.base, fs.blockSize, 4 * idx);
    id := heap.GetWord(indirect' - heap.base + 4 * idx);
  }

  /** What every exit of a scan runs: free the indirect buffer if there is one. */
  method FreeIndirect(fs: Fs, ino: Inode, heap: Heap, indirect: nat, ghost L: Layout, ghost m: seq<byte>)
    requires Mounted(fs) && |ino.blocks| == 15 && Buffered(heap, fs, ino, indirect, L, m)
    modifies heap, heap.mem
    ensures HeapKept(heap, L, m)
  {
    hide CanBuffer, Allocates, WellFormed;
    if indirect != NULL {
      heap.GiveBack(indirect, fs.blockSize, L, m);
    }
  }

  lemma NothingBuffered(heap: Heap, fs: Fs, ino: Inode)
    requires Mounted(fs) && |ino.blocks| == 15 && heap.Valid()
    ensures Buffered(heap, fs, ino, NULL, heap.blocks, heap.mem[..])
  {
  }

  // ---------------------------------------------------------------- the three scans

  method Ext2Lookup(fs: Fs, dir: nat, name: seq<byte>, tail: seq<byte>, heap: Heap) returns (result: nat)
    requires Scannable(fs, dir) && NulFree(name) && |tail| >= SLACK && heap.Valid()
    modifies heap, heap.mem
    ensures result == LookupIn(DirEntries(fs, dir, tail, CanBuffer(old(heap.blocks), fs.blockSize)), name)
    ensures HeapKept(heap, old(heap.blocks), old(heap.mem[..]))
  {
    hide InodeAt, EntriesFrom, LookupIn, Records, Readable, Continues, BlockId, Buffered, CanBuffer, HeapKept;
    ghost var L, m := heap.blocks, heap.mem[..];
    ghost var canAlloc := CanBuffer(L, fs.blockSize);
    HeapUntouched(heap);
    var ino := GetInode(fs, dir);
    if !IsDir(ino) {
      NoEntries(name);
      return 0;
    }
    NothingBuffered(heap, fs, ino);
    var count := BlockCount(fs, ino);
    var indirect := NULL;
    var blk := 0;
    result := 0;
    while blk < count && result == 0
      invariant 0 <= blk <= count && Buffered(heap, fs, ino, indirect, L, m)
      invariant LookupIn(EntriesFrom(fs, ino, tail, canAlloc, 0), name) ==
                if result != 0 then result else LookupIn(EntriesFrom(fs, ino, tail, canAlloc, blk), name)
      decreases count - blk, if result == 0 then 1 else 0
    {
      var stop, id;
      stop, id, indirect := SelectBlock(fs, ino, blk, heap, indirect, L, m);
      if stop {
        break;
      }
      EntriesStep(fs, ino, tail, canAlloc, blk, name);
      if id != 0 {
        result := LookupBlock(DiskBlock(fs, id) + tail, fs.blockSize, name);
      } else {
        NoEntries(name);
      }
      blk := blk + 1;
    }
    if result == 0 { EntriesStop(fs, ino, tail, canAlloc, blk, name); }
    FreeIndirect(fs, ino, heap, indirect, L, m);
  }

  lemma NoEntries(name: seq<byte>)
    ensures LookupIn([], name) == 0 && FindIn([], name) == 0 && Listing([]) == []
  {
  }

  method FindInodeInDir(fs: Fs, dir: nat, name: seq<byte>, tail: seq<byte>, heap: Heap) returns (result: nat)
    requires Scannable(fs, dir) && NulFree(name) && |tail| >= SLACK && heap.Valid()
    modifies heap, heap.mem
    ensures result == FindIn(DirEntries(fs, dir, tail, CanBuffer(old(heap.blocks), fs.blockSize)), name)
    ensures HeapKept(heap, old(heap.blocks), old(heap.mem[..]))
  {
    hide InodeAt, EntriesFrom, FindIn, Records, Readable, Continues, BlockId, Buffered, CanBuffer, HeapKept;
    ghost var L, m := heap.blocks, heap.mem[..];
    ghost var canAlloc := CanBuffer(L, fs.blockSize);
    HeapUntouched(heap);
    var ino := GetInode(fs, dir);
    if !IsDir(ino) {
      NoEntries(name);
      return 0;
    }
    NothingBuffered(heap, fs, ino);
    var count := BlockCount(fs, ino);
    var indirect := NULL;
    var blk := 0;
    result := 0;
    while blk < count && result == 0
      invariant 0 <= blk <= count && Buffered(heap, fs, ino, indirect, L, m)
      invariant FindIn(EntriesFrom(fs, ino, tail, canAlloc, 0), name) ==
                if result != 0 then result else FindIn(EntriesFrom(fs, ino, tail, canAlloc, blk), name)
      decreases count - blk, if result == 0 then 1 else 0
    {
      var stop, id;
      stop, id, indirect := SelectBlock(fs, ino, blk, heap, indirect, L, m);
      if stop {
        break;
      }
      EntriesStep(fs, ino, tail, canAlloc, blk, name);
      if id != 0 {
        result := FindBlock(DiskBlock(fs, id) + tail, fs.blockSize, name);
      } else {
        NoEntries(name);
      }
      blk := blk + 1;
    }
    if result == 0 { EntriesStop(fs, ino, tail, canAlloc, blk, name); }
    FreeIndirect(fs, ino, heap, indirect, L, m);
  }

  method Ext2Ls(fs: Fs, dir: nat, tail: seq<byte>, heap: Heap) returns (out: seq<(bool, seq<byte>)>)
    requires Scannable(fs, dir) && |tail| >= SLACK && heap.Valid()
    modifies heap, heap.mem
    ensures out == Listing(DirEntries(fs, dir, tail, CanBuffer(old(heap.blocks), fs.blockSize)))
    ensures HeapKept(heap, old(heap.blocks), old(heap.mem[..]))
  {
    hide InodeAt, EntriesFrom, Listing, Records, Readable, Continues, BlockId, Buffered, CanBuffer, HeapKept;
    ghost var L, m := heap.blocks, heap.mem[..];
    ghost var canAlloc := CanBuffer(L, fs.blockSize);
    HeapUntouched(heap);
    out := [];
    NoEntries([]);
    var ino := GetInode(fs, dir);
    if !IsDir(ino) {
      return;
    }
    NothingBuffered(heap, fs, ino);
    var count := BlockCount(fs, ino);
    var indirect := NULL;
    var blk := 0;
    while blk < count
      invariant 0 <= blk <= count && Buffered(heap, fs, ino, indirect, L, m)
      invariant Listing(EntriesFrom(fs, ino, tail, canAlloc, 0)) ==
                out + Listing(EntriesFrom(fs, ino, tail, canAlloc, blk))
    {
      var stop, id;
      stop, id, indirect := SelectBlock(fs, ino, blk, heap, indirect, L, m);
      if stop {
        break;
      }
      EntriesStep(fs, ino, tail, canAlloc, blk, []);
      if id != 0 {
        var lines := ListBlock(DiskBlock(fs, id) + tail, fs.blockSize);
        out := out + lines;
      }
      blk := blk + 1;
    }
    EntriesStop(fs, ino, tail, canAlloc, blk, []);
    FreeIndirect(fs, ino, heap, indirect, L, m);
  }

  // ---------------------------------------------------------------- agreement

  /** Every block of the directory holds well-formed records with NUL-free names. */
  ghost predicate WellFormedDir(fs: Fs, n: nat)
    requires Scannable(fs, n) && IsDir(InodeAt(fs, n))
  {
    forall blk :: 0 <= blk && blk < BlockCount(fs, InodeAt(fs, n)) && Continues(fs, InodeAt(fs, n), blk, true) ==>
      WellFormedBlock(fs, BlockId(fs, InodeAt(fs, n), blk))
  }

  ghost predicate WellFormedBlock(fs: Fs, id: nat)
    requires Mounted(fs)
  {
    id == 0 || (id <= MAX_BLOCK && WellFormedFrom(DiskBlock(fs, id), 0) && NamesNulFree(fs, id))
  }

  ghost predicate NamesNulFree(fs: Fs, id: nat)
    requires Mounted(fs) && id <= MAX_BLOCK
  {
    forall tail, e :: |tail| >= SLACK && e in Records(DiskBlock(fs, id) + tail, fs.blockSize, 0) ==> NulFree(e.name)
  }

  lemma {:induction false} EntriesAgree(fs: Fs, n: nat, t1: seq<byte>, t2: seq<byte>, canAlloc: bool, blk: nat)
    requires Scannable(fs, n) && IsDir(InodeAt(fs, n)) && WellFormedDir(fs, n) && |t1| >= SLACK && |t2| >= SLACK
    ensures var ino := InodeAt(fs, n);
            EntriesFrom(fs, ino, t1, canAlloc, blk) == EntriesFrom(fs, ino, t2, canAlloc, blk)
    ensures forall e :: e in EntriesFrom(fs, InodeAt(fs, n), t1, canAlloc, blk) ==> NulFree(e.name)
    decreases BlockCount(fs, InodeAt(fs, n)) - blk
  {
    hide InodeAt, BlockId, Records, WellFormedFrom, WordAt;
    var ino := InodeAt(fs, n);
    if blk < BlockCount(fs, ino) && Continues(fs, ino, blk, canAlloc) {
      EntriesStep(fs, ino, t1, canAlloc, blk, []);
      var id := BlockId(fs, ino, blk);
      assert WellFormedBlock(fs, id);
      if id != 0 {
        RecordsIgnoreTail(DiskBlock(fs, id), t1, t2, 0);
      }
      EntriesAgree(fs, n, t1, t2, canAlloc, blk + 1);
    }
  }

  /**
   The two lookups agree on every well-formed directory, whatever their static buffers
   held before, and a name is found exactly when ext2_ls lists it.
   */
  lemma LookupsAgree(fs: Fs, n: nat, name: seq<byte>, t1: seq<byte>, t2: seq<byte>, t3: seq<byte>, canAlloc: bool)
    requires Scannable(fs, n) && IsDir(InodeAt(fs, n)) && WellFormedDir(fs, n)
    requires |t1| >= SLACK && |t2| >= SLACK && |t3| >= SLACK
    ensures LookupIn(DirEntries(fs, n, t1, canAlloc), name) == FindIn(DirEntries(fs, n, t2, canAlloc), name)
    ensures LookupIn(DirEntries(fs, n, t1, canAlloc), name) != 0 <==>
            Listed(Listing(DirEntries(fs, n, t3, canAlloc)), name)
  {
    hide InodeAt, EntriesFrom, LookupIn, FindIn, Listing, Listed;
    EntriesAgree(fs, n, t1, t2, canAlloc, 0);
    EntriesAgree(fs, n, t1, t3, canAlloc, 0);
    LookupIsFind(DirEntries(fs, n, t1, canAlloc), name);
    LookupIffListed(DirEntries(fs, n, t1, canAlloc), name);
  }
}
