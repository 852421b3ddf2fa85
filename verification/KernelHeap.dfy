/**
 The kernel heap allocator over the bytes of g_heap: pointers are 32-bit addresses,
 headers are read from and written to memory, and the ghost field `blocks` names
 the layout they spell out.
 */
module KernelHeap {
  import opened Words
  import opened HeapLayout
  import opened HeapRuns
  import opened HeapMemory
  import opened Bytes

  const NULL: nat := 0

  /** Every payload byte of every block of L except block `but` is the same in both memories. */
  ghost predicate PayloadsKept(m: seq<byte>, m': seq<byte>, L: Layout, but: int) {
    && |m'| == |m| == HEAP_SIZE
    && (forall i, a :: 0 <= i < |L| && i != but && InPayload(L[i], a) ==> m'[a] == m[a])
  }

  /** No byte of the payload of any block live in L differs. */
  ghost predicate LiveBytesKept(m: seq<byte>, m': seq<byte>, L: Layout) {
    && |m'| == |m| == HEAP_SIZE
    && (forall b, a :: b in LiveSet(L) && InPayload(b, a) ==> m'[a] == m[a])
  }

  /** Like LiveBytesKept, for the live blocks not listed in `except`. */
  ghost predicate OthersKept(m: seq<byte>, m': seq<byte>, L: Layout, except: seq<Block>) {
    && |m'| == |m| == HEAP_SIZE
    && (forall b, a :: b in LiveSet(L) && b !in except && InPayload(b, a) ==> m'[a] == m[a])
  }

  /** The bytes a block offers its owner. */
  ghost function Payload(m: seq<byte>, b: Block): seq<byte> {
    if HEADER <= b.size && b.End() <= |m| then m[b.start + HEADER..b.End()] else []
  }

  lemma KeptMeansLiveKept(m: seq<byte>, m': seq<byte>, L: Layout, but: int)
    requires PayloadsKept(m, m', L, but)
    requires 0 <= but < |L| ==> L[but].free
    ensures LiveBytesKept(m, m', L)
  {
    forall b, a | b in LiveSet(L) && InPayload(b, a) ensures m'[a] == m[a] {
      var i :| 0 <= i < |L| && !L[i].free && L[i] == b;
    }
  }

  lemma LiveKeptShrinks(m: seq<byte>, m': seq<byte>, L: Layout, R: Layout)
    requires LiveBytesKept(m, m', L) && LiveSet(R) <= LiveSet(L)
    ensures LiveBytesKept(m, m', R)
  {
  }

  lemma LiveKeptThen(m: seq<byte>, m': seq<byte>, m'': seq<byte>, L: Layout)
    requires LiveBytesKept(m, m', L) && LiveBytesKept(m', m'', L)
    ensures LiveBytesKept(m, m'', L)
  {
  }

  /** split_block aligns a size kmalloc has already aligned. */
  lemma AlignTwice(size: nat)
    requires size < WORD_LIMIT
    ensures Need(AlignUp32(size, HEAP_ALIGN)) == Need(size) == (AlignUp32(size, HEAP_ALIGN) + HEADER) % WORD_LIMIT
  {
    var a := AlignUp32(size, HEAP_ALIGN);
    AlignedSize(size);
    assert a + 15 - (a + 15) % 16 == a;
  }

  lemma AlignedSize(size: nat)
    ensures AlignUp32(size, HEAP_ALIGN) % 16 == 0 && AlignUp32(size, HEAP_ALIGN) + 16 <= WORD_LIMIT
  {
    var sum := (size + 15) % WORD_LIMIT;
    assert sum - sum % 16 == sum / 16 * 16;
  }

  /** Payloads of two blocks of a tiling share no byte. */
  lemma LiveDisjoint(L: Layout, b: Block, c: Block, a: nat)
    requires Tiles(L, 0, HEAP_SIZE) && b in LiveSet(L) && c in LiveSet(L) && InPayload(b, a) && InPayload(c, a)
    ensures b == c
  {
    Ascending(L, 0, HEAP_SIZE);
    var i :| 0 <= i < |L| && !L[i].free && L[i] == b;
    var j :| 0 <= j < |L| && !L[j].free && L[j] == c;
  }

  /** kcalloc's division guard rejects exactly the products that do not fit 32 bits. */
  lemma DivisionGuardIsExact(count: nat, size: nat)
    requires count < WORD_LIMIT && size < WORD_LIMIT
    ensures (count != 0 && size > (WORD_LIMIT - 1) / count) <==> count * size >= WORD_LIMIT
  {
    if count != 0 {
      QuotientBound(WORD_LIMIT - 1, count, size);
    }
  }

  /** Bytes written inside one live payload are bytes of no other live payload. */
  lemma OwnWritesKeepOthers(m: seq<byte>, m': seq<byte>, L: Layout, R: Layout, own: Block)
    requires Tiles(L, 0, HEAP_SIZE) && own in LiveSet(L) && |m'| == |m| == HEAP_SIZE
    requires forall a :: 0 <= a < HEAP_SIZE && !InPayload(own, a) ==> m'[a] == m[a]
    requires LiveSet(R) <= LiveSet(L) - {own}
    ensures LiveBytesKept(m, m', R)
  {
    forall b, a | b in LiveSet(R) && InPayload(b, a) ensures m'[a] == m[a] {
      if InPayload(own, a) {
        LiveDisjoint(L, b, own, a);
      }
    }
  }

  class Heap {
    const base: nat
    const mem: array<byte>
    var head: nat
    var ready: bool
    ghost var blocks: Layout

    /** Where the linker put g_heap: 16-aligned, not at address 0, below 4 GiB. */
    ghost predicate Placed() {
      mem.Length == HEAP_SIZE && base % 16 == 0 && 0 < base && base + HEAP_SIZE < WORD_LIMIT
    }

    ghost predicate Represents()
      reads this, mem
    {
      Placed() && ready && head == base && Links(mem[..], base, blocks)
    }

    ghost predicate Valid()
      reads this, mem
    {
      && Placed() && WellFormed(blocks)
      && (if ready then Represents() else blocks == FRESH)
    }

    /** The bytes in front of `ptr` lie in g_heap and do not carry a block's magic number. */
    ghost predicate Stray(ptr: nat)
      reads this, mem
    {
      && ptr >= base + HEADER && ptr - base - HEADER + FIELDS <= mem.Length
      && HeaderAt(mem[..], ptr - base - HEADER).magic != BLOCK_MAGIC
    }

    /** `ptr` was returned by the allocator and not freed since. */
    ghost predicate LivePtr(ptr: nat)
      reads this
    {
      ptr >= base + HEADER && IsLive(blocks, ptr - base - HEADER)
    }

    /** `ptr` is the payload of a block of the list, live or free. */
    ghost predicate Listed(ptr: nat)
      reads this
    {
      ready && ptr >= base + HEADER && IndexOf(blocks, ptr - base - HEADER) < |blocks|
    }

    constructor (address: nat, storage: array<byte>)
      requires storage.Length == HEAP_SIZE
      requires address % 16 == 0 && 0 < address && address + HEAP_SIZE < WORD_LIMIT
      ensures Valid() && blocks == FRESH && base == address && mem == storage
    {
      base, mem, head, ready, blocks := address, storage, NULL, false, FRESH;
    }

    // -------------------------------------------------------------- memory access

    method PutWord(o: nat, v: nat)
      requires o + 4 <= mem.Length && v < WORD_LIMIT
      modifies mem
      ensures WordAt(mem[..], o) == v
      ensures forall a :: 0 <= a < mem.Length && !(o <= a < o + 4) ==> mem[a] == old(mem[a])
    {
      Digits(v);
      mem[o] := v % 256;
      mem[o + 1] := v / 256 % 256;
      mem[o + 2] := v / 65536 % 256;
      mem[o + 3] := v / 16777216;
    }

    method PutHeader(o: nat, h: Header)
      requires o + FIELDS <= mem.Length && FitsWords(h)
      modifies mem
      ensures Writes(old(mem[..]), mem[..], o, h)
    {
      PutWord(o, h.magic);
      PutWord(o + 4, h.size);
      mem[o + 8] := h.free;
      PutWord(o + 12, h.next);
      PutWord(o + 16, h.prev);
    }

    method GetWord(o: nat) returns (v: nat)
      requires o + 4 <= mem.Length
      ensures v == WordAt(mem[..], o)
    {
      v := mem[o] as int + 256 * mem[o + 1] as int + 65536 * mem[o + 2] as int + 16777216 * mem[o + 3] as int;
    }

    method GetHeader(o: nat) returns (h: Header)
      requires o + FIELDS <= mem.Length
      ensures h == HeaderAt(mem[..], o)
    {
      var magic := GetWord(o);
      var size := GetWord(o + 4);
      var next := GetWord(o + 12);
      var prev := GetWord(o + 16);
      h := Header(magic, size, mem[o + 8], next, prev);
    }

    method SetPrev(p: nat, v: nat)
      requires v < WORD_LIMIT
      requires p != NULL ==> base <= p && p - base + FIELDS <= mem.Length && FitsWords(HeaderAt(mem[..], p - base))
      modifies mem
      ensures SetsPrev(old(mem[..]), mem[..], base, p, v)
    {
      if p != NULL {
        var h := GetHeader(p - base);
        PutHeader(p - base, h.(prev := v));
      }
    }

    /** The header of block k, read from memory. */
    method ReadBlock(block: nat, ghost k: nat) returns (h: Header)
      requires Represents() && k < |blocks| && block == base + blocks[k].start
      ensures h == HeaderFor(base, blocks, k) && FitsWords(h)
      ensures blocks[k].start + FIELDS <= blocks[k].End() <= HEAP_SIZE && blocks[k].size >= HEADER
    {
      hide HeaderAt;
      assert LinkedAt(mem[..], base, blocks, k);
      h := GetHeader(block - base);
      Apart(blocks, k, if k + 1 < |blocks| then k + 1 else k);
      Apart(blocks, k, if k > 0 then k - 1 else k);
    }

    // -------------------------------------------------------------- split and merge

    method HeapInit()
      requires Valid()
      modifies this`head, this`ready, mem
      ensures Valid() && ready && LiveBytesKept(old(mem[..]), mem[..], blocks)
      ensures old(ready) ==> mem[..] == old(mem[..]) && head == old(head)
    {
      if ready {
        return;
      }
      head := base;
      PutHeader(0, Header(BLOCK_MAGIC, HEAP_SIZE, 1, NULL, NULL));
      ready := true;
      assert LinkedAt(mem[..], base, blocks, 0);
    }

    lemma HeaderFits(m: seq<byte>, o: nat)
      requires o + FIELDS <= |m|
      ensures FitsWords(HeaderAt(m, o))
    {
    }

    /**
     split_block.  From a header upwards the list in memory becomes the split layout; below
     that, and if the block is large enough to be cut at all, two headers overlay each other.
     */
    method SplitBlock(block: nat, size: nat, ghost k: nat)
      requires Represents() && k < |blocks| && block == base + blocks[k].start
      requires Need(size) <= blocks[k].size && Need(size) % 16 == 0
      modifies mem, this`blocks
      ensures Splittable(old(blocks), k, Need(size)) ==>
                && Represents() && blocks == Split(old(blocks), k, Need(size))
                && PayloadsKept(old(mem[..]), mem[..], old(blocks), k)
      ensures !Splittable(old(blocks), k, Need(size)) ==>
                blocks == old(blocks) && Overlaid(mem[..], base, blocks, k, Need(size))
    {
      hide HeaderAt, Tiles, Need, Overlaid, SplitWrites;
      var total := Need(size);
      var h := ReadBlock(block, k);
      if h.size <= total + HEADER + HEAP_ALIGN {
        return;
      }
      ghost var m0 := mem[..];
      PutHeader(block - base + total, Header(BLOCK_MAGIC, h.size - total, 1, h.next, block));
      ghost var m1 := mem[..];
      NextHeader(m0, m1, blocks, k, total);
      SetPrev(h.next, block + total);
      ghost var m2 := mem[..];
      HeaderFits(m2, block - base);
      var b := GetHeader(block - base);
      PutHeader(block - base, b.(next := block + total, size := total));
      assert CutWrites(m0, m1, m2, mem[..], base, blocks, k, total);
      if total < HEADER {
        CutOverlays(m0, m1, m2, mem[..], base, blocks, k, total);
      } else {
        CutSplits(m0, m1, m2, mem[..], base, blocks, k, total);
        SplitResult(m0, m1, m2, mem[..], blocks, k, total);
        blocks := Split(blocks, k, total);
      }
    }

    /** Cutting `need` bytes off block k leaves room for a header on both sides, or cuts nothing. */
    ghost predicate Splittable(L: Layout, k: nat, need: nat) {
      k < |L| && (need >= HEADER || L[k].size <= need + HEADER + HEAP_ALIGN)
    }

    lemma SplitResult(m0: seq<byte>, m1: seq<byte>, m2: seq<byte>, m3: seq<byte>, L: Layout, k: nat, total: nat)
      requires SplitWrites(m0, m1, m2, m3, base, L, k, total)
      ensures Links(m3, base, Split(L, k, total)) && PayloadsKept(m0, m3, L, k)
    {
      hide HeaderAt, Tiles;
      SplitLinks(m0, m1, m2, m3, base, L, k, total);
      forall i, a | 0 <= i < |L| && i != k && InPayload(L[i], a) ensures m3[a] == m0[a] {
        SplitKeepsPayload(m0, m1, m2, m3, base, L, k, total, i, a);
      }
    }

    /** The header after the one being split is still readable once the new header is written. */
    lemma NextHeader(m0: seq<byte>, m1: seq<byte>, L: Layout, k: nat, total: nat)
      requires Placed() && Links(m0, base, L) && k < |L| && total + HEADER < L[k].size
      requires Writes(m0, m1, L[k].start + total,
                      Header(BLOCK_MAGIC, L[k].size - total, 1, HeaderFor(base, L, k).next, base + L[k].start))
      ensures var p := HeaderFor(base, L, k).next;
              p != NULL ==> base <= p && p - base + FIELDS <= |m1| && FitsWords(HeaderAt(m1, p - base))
    {
      hide HeaderAt, Tiles;
      if k + 1 < |L| {
        assert LinkedAt(m0, base, L, k + 1);
        Apart(L, k, k + 1);
        Apart(L, k + 1, if k + 2 < |L| then k + 2 else k);
        WritesApart(m0, m1, L[k].start + total,
          Header(BLOCK_MAGIC, L[k].size - total, 1, HeaderFor(base, L, k).next, base + L[k].start), L[k + 1].start);
      }
    }

    method MergeWithNext(block: nat, ghost k: nat)
      requires Represents() && k < |blocks| && block == base + blocks[k].start
      modifies mem, this`blocks
      ensures Represents() && blocks == MergeNext(old(blocks), k)
      ensures PayloadsKept(old(mem[..]), mem[..], old(blocks), -1)
    {
      hide HeaderAt;
      var h := ReadBlock(block, k);
      if h.next == NULL {
        return;
      }
      var n := ReadBlock(h.next, k + 1);
      if n.free == 0 || h.next != block + h.size {
        return;
      }
      ghost var m0 := mem[..];
      hide Tiles;
      PutHeader(block - base, h.(size := h.size + n.size, next := n.next));
      ghost var m1 := mem[..];
      AfterNextHeader(m0, m1, blocks, k);
      SetPrev(n.next, block);
      MergeLinks(m0, m1, mem[..], base, blocks, k);
      forall i, a | 0 <= i < |blocks| && InPayload(blocks[i], a) ensures mem[..][a] == m0[a] {
        MergeKeepsPayload(m0, m1, mem[..], base, blocks, k, i, a);
      }
      blocks := MergeNext(blocks, k);
    }

    lemma AfterNextHeader(m0: seq<byte>, m1: seq<byte>, L: Layout, k: nat)
      requires Placed() && Links(m0, base, L) && k + 1 < |L|
      requires var h, n := HeaderFor(base, L, k), HeaderFor(base, L, k + 1);
               Writes(m0, m1, L[k].start, h.(size := h.size + n.size, next := n.next))
      ensures var p := HeaderFor(base, L, k + 1).next;
              p != NULL ==> base <= p && p - base + FIELDS <= |m1| && FitsWords(HeaderAt(m1, p - base))
    {
      hide HeaderAt, Tiles;
      var h, n := HeaderFor(base, L, k), HeaderFor(base, L, k + 1);
      if k + 2 < |L| {
        assert LinkedAt(m0, base, L, k + 2);
        Apart(L, k, k + 2);
        Apart(L, k + 1, if k + 3 < |L| then k + 3 else k);
        WritesApart(m0, m1, L[k].start, h.(size := h.size + n.size, next := n.next), L[k + 2].start);
      }
    }

    /** The free flag of the header at offset o. */
    method PutFree(o: nat, free: bool)
      requires o + FIELDS <= mem.Length
      modifies mem
      ensures Writes(old(mem[..]), mem[..], o, HeaderAt(old(mem[..]), o).(free := if free then 1 else 0))
    {
      hide HeaderAt;
      HeaderFits(mem[..], o);
      var h := GetHeader(o);
      PutHeader(o, h.(free := if free then 1 else 0));
    }

    lemma FlagResult(m: seq<byte>, m': seq<byte>, L: Layout, k: nat, free: bool)
      requires Links(m, base, L) && k < |L| && L[k].start + FIELDS <= |m|
      requires Writes(m, m', L[k].start, HeaderAt(m, L[k].start).(free := if free then 1 else 0))
      ensures Links(m', base, L[k := L[k].(free := free)]) && PayloadsKept(m, m', L, -1)
    {
      hide HeaderAt, Tiles;
      assert LinkedAt(m, base, L, k);
      FlagLinks(m, m', base, L, k, free);
      forall i, a | 0 <= i < |L| && InPayload(L[i], a) ensures m'[a] == m[a] {
        FlagKeepsPayload(m, m', base, L, k, HeaderAt(m, L[k].start).(free := if free then 1 else 0), i, a);
      }
    }

    method SetFree(block: nat, free: bool, ghost k: nat)
      requires Represents() && k < |blocks| && block == base + blocks[k].start
      modifies mem, this`blocks
      ensures Represents() && blocks == old(blocks)[k := old(blocks)[k].(free := free)]
      ensures PayloadsKept(old(mem[..]), mem[..], old(blocks), -1)
    {
      hide HeaderAt, Tiles;
      ghost var m0 := mem[..];
      Apart(blocks, k, k);
      PutFree(block - base, free);
      FlagResult(m0, mem[..], blocks, k, free);
      blocks := blocks[k := blocks[k].(free := free)];
    }

    // -------------------------------------------------------------- kmalloc and kfree

    /** What a kmalloc that leaves the list intact guarantees, seen from the state before it. */
    ghost predicate Mallocs(L: Layout, m: seq<byte>, size: nat, ptr: nat)
      reads this, mem
    {
      && Valid() && LiveBytesKept(m, mem[..], L) && blocks == Step(L, Malloc(size))
      && (ptr == NULL ==> blocks == L)
      && (ptr != NULL ==>
            && ready && ptr >= base + HEADER && Allocates(L, blocks, size, ptr - base - HEADER))
    }

    /** kmalloc, for every 32-bit size; a corrupting request leaves no list behind. */
    method Kmalloc(size: nat) returns (ptr: nat)
      requires Valid() && size < WORD_LIMIT
      modifies mem, this
      ensures ptr == NULL <==> size == 0 || NoGap(old(blocks), Need(size))
      ensures size == 0 || !Corrupts(old(blocks), size) ==> Mallocs(old(blocks), old(mem[..]), size, ptr)
      ensures size != 0 && Corrupts(old(blocks), size) ==> forall R :: !Links(mem[..], base, R)
    {
      hide Tiles, Coalesced, Links, NoGap, GapFits, AllocAt, LiveSet, Allocates, Corrupts, Mallocs, Need, HeaderAt;
      if size == 0 {
        ZeroMallocs(mem[..]);
        return NULL;
      }
      ghost var m0 := mem[..];
      if !ready {
        HeapInit();
      }
      ghost var L := blocks;
      var aligned := AlignUp32(size, HEAP_ALIGN);
      AlignTwice(size);
      FirstFitIsLowestGap(L, Need(size));
      var cur := FindFit((aligned + HEADER) % WORD_LIMIT);
      if cur == NULL {
        NoFitMallocs(m0, size);
        return NULL;
      }
      Grab(cur, aligned, size, m0);
      return cur + HEADER;
    }

    lemma ZeroMallocs(m: seq<byte>)
      requires Valid() && m == mem[..]
      ensures Mallocs(blocks, m, 0, NULL)
    {
    }

    lemma NoFitMallocs(m: seq<byte>, size: nat)
      requires Valid() && LiveBytesKept(m, mem[..], blocks) && FirstFit(blocks, Need(size)) == |blocks|
      ensures !Corrupts(blocks, size) && Mallocs(blocks, m, size, NULL)
    {
    }

    /** Split the block that was found and mark it used. */
    method Grab(cur: nat, aligned: nat, ghost size: nat, ghost m: seq<byte>)
      requires Valid() && ready && 0 < size < WORD_LIMIT && LiveBytesKept(m, mem[..], blocks)
      requires Need(aligned) == Need(size) && FirstFit(blocks, Need(size)) < |blocks|
      requires cur == base + blocks[FirstFit(blocks, Need(size))].start
      modifies mem, this`blocks
      ensures !Corrupts(old(blocks), size) ==> Mallocs(old(blocks), m, size, cur + HEADER)
      ensures Corrupts(old(blocks), size) ==> forall R :: !Links(mem[..], base, R)
    {
      hide Tiles, Coalesced, Links, AllocAt, LiveSet, Allocates, Mallocs, HeaderAt, Split, Overlaid;
      ghost var L := blocks;
      ghost var k := FirstFit(L, Need(size));
      FitShape(L, size);
      ghost var m0 := mem[..];
      SplitBlock(cur, aligned, k);
      ghost var m1 := mem[..];
      PutFree(cur - base, false);
      if Corrupts(L, size) {
        MarkOverlaid(m1, mem[..], L, k, Need(size));
      } else {
        KeptMeansLiveKept(m0, m1, L, k);
        LiveKeptThen(m, m0, m1, L);
        Taken(m, m1, mem[..], L, size);
        blocks := Alloc(L, Need(size));
        TakenMallocs(L, m, size);
      }
    }

    lemma FitShape(L: Layout, size: nat)
      requires Placed() && WellFormed(L) && 0 < size < WORD_LIMIT && FirstFit(L, Need(size)) < |L|
      ensures var k := FirstFit(L, Need(size));
              && Need(size) <= L[k].size && Need(size) % 16 == 0
              && L[k].start + FIELDS <= HEAP_SIZE == mem.Length
              && (Corrupts(L, size) <==> !Splittable(L, k, Need(size)))
    {
      NeedIsExactIff(size);
      Apart(L, FirstFit(L, Need(size)), 0);
    }

    /** The free flag of an overlaid header repairs nothing. */
    lemma MarkOverlaid(m: seq<byte>, m': seq<byte>, L: Layout, k: nat, need: nat)
      requires Overlaid(m, base, L, k, need)
      requires Writes(m, m', L[k].start, HeaderAt(m, L[k].start).(free := 0))
      ensures Overlaid(m', base, L, k, need) && forall R :: !Links(m', base, R)
    {
      hide HeaderAt, Tiles, Links;
      forall j | 0 <= j < k ensures LinkedAt(m', base, L, j) {
        assert LinkedAt(m, base, L, j);
        Apart(L, j, k);
        WritesApart(m, m', L[k].start, HeaderAt(m, L[k].start).(free := 0), L[j].start);
      }
      forall R ensures !Links(m', base, R) {
        OverlaidIsNoList(m', base, L, k, need, R);
      }
    }

    lemma TakenLayout(L: Layout, size: nat)
      requires WellFormed(L) && 0 < size < WORD_LIMIT && !Corrupts(L, size)
      requires FirstFit(L, Need(size)) < |L|
      ensures var k := FirstFit(L, Need(size));
              var S := Split(L, k, Need(size));
              && k < |S| && S[k].start == L[k].start
              && Alloc(L, Need(size)) == S[k := S[k].(free := false)]
              && WellFormed(Alloc(L, Need(size))) && LiveSet(L) <= LiveSet(Alloc(L, Need(size)))
    {
      FitKeeps(L, size);
    }

    /** The flag written after a proper split completes the allocation. */
    lemma Taken(m: seq<byte>, m1: seq<byte>, m2: seq<byte>, L: Layout, size: nat)
      requires WellFormed(L) && 0 < size < WORD_LIMIT && !Corrupts(L, size) && FirstFit(L, Need(size)) < |L|
      requires |m| == |m1| == HEAP_SIZE
      requires var k := FirstFit(L, Need(size));
               && Links(m1, base, Split(L, k, Need(size))) && L[k].start + FIELDS <= |m1|
               && Writes(m1, m2, L[k].start, HeaderAt(m1, L[k].start).(free := 0))
      ensures Links(m2, base, Alloc(L, Need(size))) && WellFormed(Alloc(L, Need(size)))
      ensures LiveBytesKept(m, m1, L) ==> LiveBytesKept(m, m2, L)
    {
      hide HeaderAt, Tiles, Links, Alloc, Need, Split;
      var k := FirstFit(L, Need(size));
      var S := Split(L, k, Need(size));
      TakenLayout(L, size);
      FlagResult(m1, m2, S, k, false);
      forall b, a | LiveBytesKept(m, m1, L) && b in LiveSet(L) && InPayload(b, a) ensures m2[a] == m[a] {
        InSplit(S, Alloc(L, Need(size)), k, b, a);
      }
    }

    /** A payload byte of a block live after taking block k belongs to a block of the split list. */
    lemma InSplit(S: Layout, A: Layout, k: nat, b: Block, a: int)
      requires k < |S| && A == S[k := S[k].(free := false)] && b in LiveSet(A) && InPayload(b, a)
      ensures exists i :: 0 <= i < |S| && InPayload(S[i], a)
    {
      var i :| 0 <= i < |A| && !A[i].free && A[i] == b;
      assert InPayload(S[i], a);
    }

    lemma TakenMallocs(L: Layout, m: seq<byte>, size: nat)
      requires WellFormed(L) && 0 < size < WORD_LIMIT && !Corrupts(L, size) && FirstFit(L, Need(size)) < |L|
      requires Placed() && ready && head == base && blocks == Alloc(L, Need(size))
      requires Links(mem[..], base, blocks) && WellFormed(blocks) && LiveBytesKept(m, mem[..], L)
      ensures Mallocs(L, m, size, base + L[FirstFit(L, Need(size))].start + HEADER)
    {
      hide Tiles, Coalesced, Links, Allocates, Alloc;
      FitAllocates(L, size);
    }

    /** kmalloc's walk along the list to the first free block that is large enough. */
    method FindFit(need: nat) returns (cur: nat)
      requires Valid() && ready
      ensures var k := FirstFit(blocks, need);
              cur == if k < |blocks| then base + blocks[k].start else NULL
    {
      hide HeaderAt;
      assert blocks != [] && blocks[0].start == 0;
      cur := head;
      ghost var k := 0;
      while cur != NULL
        invariant 0 <= k <= |blocks|
        invariant cur == if k < |blocks| then base + blocks[k].start else NULL
        invariant forall i :: 0 <= i < k ==> !(blocks[i].free && blocks[i].size >= need)
        decreases |blocks| - k
      {
        var h := ReadBlock(cur, k);
        if h.magic == BLOCK_MAGIC && h.free != 0 && h.size >= need {
          return;
        }
        cur := h.next;
        k := k + 1;
      }
    }

    // -------------------------------------------------------------- kfree

    lemma ListedHeader(ptr: nat)
      requires Valid() && Listed(ptr)
      ensures ptr - base - HEADER + FIELDS <= mem.Length && !Stray(ptr)
      ensures ptr - base - HEADER == blocks[IndexOf(blocks, ptr - base - HEADER)].start
    {
      hide HeaderAt;
      assert LinkedAt(mem[..], base, blocks, IndexOf(blocks, ptr - base - HEADER));
    }

    lemma LiveIsListed(ptr: nat)
      requires Valid() && LivePtr(ptr)
      ensures Listed(ptr)
    {
      assert ready by { assert FRESH[0].free; }
    }

    /** Releasing a listed block: a live one leaves the live set, a free one is left alone. */
    lemma ReleaseListed(L: Layout, at: nat)
      requires WellFormed(L) && IndexOf(L, at) < |L|
      ensures var k := IndexOf(L, at);
              && WellFormed(Release(L, k)) && Release(L, k) == ReleaseAtStart(L, at)
              && (L[k].free ==> Release(L, k) == L)
              && (!L[k].free ==> LiveSet(Release(L, k)) == LiveSet(L) - {L[k]})
    {
      hide Tiles, Coalesced, Release;
      var k := IndexOf(L, at);
      if L[k].free { ReleaseFree(L, k); } else { ReleaseKeeps(L, k); }
    }

    /**
     kfree of a live payload; a null pointer, one without a header and one to a block that is
     free already are ignored.
     */
    method Kfree(ptr: nat)
      requires Valid() && (ptr == NULL || LivePtr(ptr) || Listed(ptr) || Stray(ptr))
      modifies mem, this`blocks
      ensures Valid() && ready == old(ready)
      ensures blocks == if old(LivePtr(ptr)) then ReleaseAtStart(old(blocks), ptr - base - HEADER) else old(blocks)
      ensures old(LivePtr(ptr)) ==> LiveSet(blocks) == LiveSet(old(blocks)) - {old(BlockAt(ptr))}
      ensures !old(Listed(ptr)) ==> mem[..] == old(mem[..])
      ensures LiveBytesKept(old(mem[..]), mem[..], blocks)
    {
      hide HeaderAt, Links, Release, Tiles, Coalesced;
      if ptr == NULL {
        return;
      }
      ghost var L := blocks;
      ghost var k := IndexOf(L, ptr - base - HEADER);
      if LivePtr(ptr) { LiveIsListed(ptr); }
      if Listed(ptr) { ListedHeader(ptr); }
      var block := ptr - HEADER;
      var h := GetHeader(block - base);
      if h.magic != BLOCK_MAGIC {
        return;
      }
      ReleaseListed(L, ptr - base - HEADER);
      SetFree(block, true, k);
      Coalesce(block, L, k);
    }

    ghost function BlockAt(ptr: nat): Block
      requires LivePtr(ptr)
      reads this
    {
      blocks[IndexOf(blocks, ptr - base - HEADER)]
    }

    /** The two merges of kfree: swallow the next block, then be swallowed by the previous one. */
    method Coalesce(block: nat, ghost L: Layout, ghost k: nat)
      requires Represents() && k < |L| && blocks == L[k := L[k].(free := true)]
      requires block == base + L[k].start
      modifies mem, this`blocks
      ensures Represents() && blocks == Release(L, k)
      ensures LiveBytesKept(old(mem[..]), mem[..], old(blocks)) && LiveSet(blocks) == LiveSet(old(blocks))
    {
      hide HeaderAt, Tiles, Links;
      ghost var m0 := mem[..];
      ghost var F := blocks;
      MergeWithNext(block, k);
      MergeLive(F, k);
      KeptMeansLiveKept(m0, mem[..], F, -1);
      var h := ReadBlock(block, k);
      if h.prev != NULL {
        var p := ReadBlock(h.prev, k - 1);
        if p.free != 0 {
          ghost var m1 := mem[..];
          ghost var M := blocks;
          MergeWithNext(h.prev, k - 1);
          MergeLive(M, k - 1);
          KeptMeansLiveKept(m1, mem[..], M, -1);
          LiveKeptShrinks(m1, mem[..], M, F);
          LiveKeptThen(m0, m1, mem[..], F);
        }
      }
    }

    // -------------------------------------------------------------- kcalloc and krealloc

    /** Short of a wrap a fitting request is one whose block holds it. */
    lemma FitsMeansSized(L: Layout, size: nat)
      requires WellFormed(L) && !Undersized(L, size)
      ensures !Corrupts(L, size)
      ensures size > 0xFFFF_FFD0 ==> NoGap(L, Need(size))
    {
      FirstFitIsLowestGap(L, Need(size));
    }

    /** kcalloc; a product that wraps the size of a block is excluded only if some block is handed out for it. */
    method Kcalloc(count: nat, size: nat) returns (ptr: nat)
      requires Valid() && count < WORD_LIMIT && size < WORD_LIMIT
      requires count * size >= WORD_LIMIT || !Undersized(blocks, count * size)
      modifies mem, this
      ensures Valid()
      ensures ptr == NULL <==>
              || count * size == 0 || count * size >= WORD_LIMIT
              || NoGap(old(blocks), Need(count * size))
      ensures ptr == NULL ==> blocks == old(blocks)
      ensures ptr != NULL ==>
                && ptr >= base + HEADER && Allocates(old(blocks), blocks, count * size, ptr - base - HEADER)
                && ptr - base + count * size <= HEAP_SIZE
                && forall a :: ptr - base <= a < ptr - base + count * size ==> mem[a] == 0
      ensures LiveBytesKept(old(mem[..]), mem[..], old(blocks))
    {
      hide Allocates, Links, Coalesced, NoGap, GapFits, Corrupts, Undersized, Step, Need, Tiles;
      DivisionGuardIsExact(count, size);
      if count != 0 && size > (WORD_LIMIT - 1) / count {
        return NULL;
      }
      var total := count * size;
      FitsMeansSized(blocks, total);
      ptr := Kmalloc(total);
      if ptr == NULL {
        return;
      }
      ZeroFill(ptr, total, old(blocks), old(mem[..]));
    }

    /** memset over the front of a block that was just allocated. */
    method ZeroFill(ptr: nat, total: nat, ghost L: Layout, ghost m0: seq<byte>)
      requires Valid() && ready && 0 < total <= 0xFFFF_FFD0
      requires ptr >= base + HEADER && Allocates(L, blocks, total, ptr - base - HEADER)
      requires LiveBytesKept(m0, mem[..], L)
      modifies mem
      ensures Valid() && ptr - base + total <= HEAP_SIZE
      ensures forall a :: ptr - base <= a < ptr - base + total ==> mem[a] == 0
      ensures LiveBytesKept(m0, mem[..], L)
    {
      hide NoGap, GapFits, Coalesced;
      ghost var b := blocks[IndexOf(blocks, ptr - base - HEADER)];
      ghost var m1 := mem[..];
      NeedIsExactIff(total);
      LiveInside(b);
      Memset(mem, ptr - base, 0, total);
      PayloadWritesKeepLinks(m1, mem[..], b);
      OwnWritesKeepOthers(m1, mem[..], blocks, L, b);
    }

    lemma LiveInside(b: Block)
      requires WellFormed(blocks) && b in LiveSet(blocks)
      ensures b.End() <= HEAP_SIZE && b.size >= HEADER
    {
      Ascending(blocks, 0, HEAP_SIZE);
    }

    /** Writing payload bytes disturbs no header. */
    lemma PayloadWritesKeepLinks(m: seq<byte>, m': seq<byte>, b: Block)
      requires WellFormed(blocks) && Links(m, base, blocks) && b in LiveSet(blocks) && |m'| == |m|
      requires forall a :: 0 <= a < HEAP_SIZE && !InPayload(b, a) ==> m'[a] == m[a]
      ensures Links(m', base, blocks)
    {
      hide Coalesced;
      var k :| 0 <= k < |blocks| && !blocks[k].free && blocks[k] == b;
      forall i | 0 <= i < |blocks| ensures LinkedAt(m', base, blocks, i) {
        assert LinkedAt(m, base, blocks, i);
        Apart(blocks, i, k);
        SameHeader(m, m', blocks[i].start);
      }
    }

    /** Block b is new after a request on layout L: it holds the request and starts at the lowest gap that can. */
    ghost predicate NewBlock(L: Layout, size: nat, b: Block) {
      && b !in LiveSet(L) && size + HEADER <= b.size <= Need(size) + 48
      && GapFits(L, Need(size), b.start) && forall lo: nat :: GapFits(L, Need(size), lo) ==> b.start <= lo
    }

    lemma AllocatesNew(L: Layout, A: Layout, size: nat, at: nat)
      requires WellFormed(L) && Allocates(L, A, size, at) && 0 < size <= 0xFFFF_FFD0
      ensures var b := A[IndexOf(A, at)]; NewBlock(L, size, b) && b.start == at && LiveSet(A) == LiveSet(L) + {b}
    {
      hide Tiles, Coalesced, GapFits, LiveSet;
      NeedIsExactIff(size);
    }

    /** krealloc of a live block to a nonzero size. */
    method Resize(ptr: nat, size: nat) returns (r: nat)
      requires Valid() && LivePtr(ptr) && 0 < size < WORD_LIMIT && !Undersized(blocks, size)
      modifies mem, this
      ensures Valid() && blocks == Step(old(blocks), Realloc(ptr - base - HEADER, size))
      ensures r != NULL ==> LivePtr(r) && BlockAt(r).size >= size + HEADER
      ensures r != NULL ==> Payload(old(mem[..]), old(BlockAt(ptr))) <= Payload(mem[..], BlockAt(r))
      ensures r == NULL ==> blocks == old(blocks) && LiveBytesKept(old(mem[..]), mem[..], blocks)
      ensures r == NULL <==> size + HEADER > old(BlockAt(ptr)).size && NoGap(old(blocks), Need(size))
      ensures size + HEADER <= old(BlockAt(ptr)).size ==> r == ptr && blocks == old(blocks) && mem[..] == old(mem[..])
      ensures r != NULL && size + HEADER > old(BlockAt(ptr)).size ==>
                && NewBlock(old(blocks), size, BlockAt(r))
                && LiveSet(blocks) == LiveSet(old(blocks)) - {old(BlockAt(ptr))} + {BlockAt(r)}
      ensures OthersKept(old(mem[..]), mem[..], old(blocks), [old(BlockAt(ptr))])
    {
      hide Coalesced, Links, NoGap, GapFits, Tiles, Release, Alloc, HeaderAt, Need, Corrupts, Undersized, Step,
           NewBlock;
      ghost var L := blocks;
      ghost var k := IndexOf(L, ptr - base - HEADER);
      var h := ReadBlock(ptr - HEADER, k);
      ReallocCases(L, ptr - base - HEADER, size);
      if size <= h.size - HEADER {
        return ptr;
      }
      FirstFitIsLowestGap(L, Need(size));
      FitsMeansSized(L, size);
      r := Kmalloc(size);
      if r != NULL {
        NeedIsExactIff(size);
        AllocatesNew(L, blocks, size, r - HEADER - base);
        Move(ptr, r, h.size - HEADER, L[k], blocks[IndexOf(blocks, r - HEADER - base)], size, L, old(mem[..]));
      }
    }

    /** The layout after krealloc of a live block to a nonzero size, case by case. */
    lemma ReallocCases(L: Layout, at: nat, size: nat)
      requires size > 0 && IndexOf(L, at) < |L|
      ensures size + HEADER <= L[IndexOf(L, at)].size || FirstFit(L, Need(size)) == |L| ==>
                Step(L, Realloc(at, size)) == L
      ensures size + HEADER > L[IndexOf(L, at)].size && FirstFit(L, Need(size)) < |L| ==>
                Step(L, Realloc(at, size)) == ReleaseAtStart(Alloc(L, Need(size)), at)
    {
    }

    /** The two blocks of a moving krealloc: `b` is live in L, `c` is new in A. */
    ghost predicate Moving(L: Layout, A: Layout, b: Block, c: Block, size: nat) {
      && WellFormed(L) && WellFormed(A) && A == Alloc(L, Need(size))
      && b in LiveSet(L) && b.size < size + HEADER <= c.size
      && c !in LiveSet(L) && LiveSet(A) == LiveSet(L) + {c}
    }

    /** memcpy into the new block. */
    method CopyBlock(ptr: nat, r: nat, count: nat, ghost b: Block, ghost c: Block, ghost size: nat,
                     ghost L: Layout, ghost m0: seq<byte>)
      requires Valid() && ready && Moving(L, blocks, b, c, size) && LiveBytesKept(m0, mem[..], L)
      requires ptr == base + b.start + HEADER && r == base + c.start + HEADER && count + HEADER == b.size
      modifies mem
      ensures Valid() && LiveBytesKept(m0, mem[..], L)
      ensures Payload(m0, b) <= Payload(mem[..], c)
    {
      hide Coalesced, HeaderAt, Alloc, Need;
      ghost var m1 := mem[..];
      LiveInside(b);
      LiveInside(c);
      BlocksApart(blocks, b, c);
      Memcpy(mem, r - base, mem, ptr - base, count);
      PayloadWritesKeepLinks(m1, mem[..], c);
      OwnWritesKeepOthers(m1, mem[..], blocks, L, c);
      LiveKeptThen(m0, m1, mem[..], L);
      forall a | InPayload(b, a) ensures m1[a] == m0[a] {}
    }

    /** memcpy into the new block, then kfree the old one. */
    method Move(ptr: nat, r: nat, count: nat, ghost b: Block, ghost c: Block, ghost size: nat,
                ghost L: Layout, ghost m0: seq<byte>)
      requires Valid() && ready && Moving(L, blocks, b, c, size) && LiveBytesKept(m0, mem[..], L)
      requires ptr == base + b.start + HEADER && r == base + c.start + HEADER && count + HEADER == b.size
      modifies mem, this`blocks
      ensures Valid() && blocks == ReleaseAtStart(Alloc(L, Need(size)), b.start)
      ensures LivePtr(r) && BlockAt(r) == c && Payload(m0, b) <= Payload(mem[..], c)
      ensures LiveSet(blocks) == LiveSet(L) - {b} + {c}
      ensures OthersKept(m0, mem[..], L, [b])
    {
      hide Coalesced, HeaderAt, Release, Alloc, Need, Links, Tiles;
      CopyBlock(ptr, r, count, b, c, size, L, m0);
      ghost var m2 := mem[..];
      LiveIndex(blocks, b);
      Kfree(ptr);
      assert c in LiveSet(blocks);
      LiveIndex(blocks, c);
      assert Payload(mem[..], c) == Payload(m2, c);
    }

    lemma BlocksApart(A: Layout, b: Block, c: Block)
      requires Tiles(A, 0, HEAP_SIZE) && b in LiveSet(A) && c in LiveSet(A) && b != c
      ensures b.End() <= c.start || c.End() <= b.start
    {
      Ascending(A, 0, HEAP_SIZE);
    }

    /** `ptr` is a live payload that holds `size` bytes. */
    ghost predicate InPlace(ptr: nat, size: nat)
      reads this
    {
      LivePtr(ptr) && size + HEADER <= BlockAt(ptr).size
    }

    /** The live block of `ptr`, if it has one. */
    ghost function OwnBlock(ptr: nat): set<Block>
      reads this
    {
      if LivePtr(ptr) then {BlockAt(ptr)} else {}
    }

    lemma ReallocNothing(L: Layout, at: int)
      ensures Step(L, Malloc(0)) == L
      ensures at >= 0 ==> Step(L, Realloc(at, 0)) == ReleaseAtStart(L, at)
    {
    }

    method Krealloc(ptr: nat, size: nat) returns (r: nat)
      requires Valid() && (ptr == NULL || LivePtr(ptr) || Stray(ptr))
      requires size < WORD_LIMIT && !Undersized(blocks, size)
      modifies mem, this
      ensures Valid()
      // the layout follows the specification function
      ensures blocks == (if ptr == NULL then Step(old(blocks), Malloc(size))
                         else if old(LivePtr(ptr)) then Step(old(blocks), Realloc(ptr - base - HEADER, size))
                         else old(blocks))
      // a pointer without a header gets nothing
      ensures ptr != NULL && !old(LivePtr(ptr)) ==> r == NULL && mem[..] == old(mem[..])
      // success: the new block holds the request and starts with every byte of the old one
      ensures r != NULL ==> LivePtr(r) && BlockAt(r).size >= size + HEADER
      ensures r != NULL && ptr != NULL ==>
                Payload(old(mem[..]), old(BlockAt(ptr))) <= Payload(mem[..], BlockAt(r))
      // failure: the old block is still live and untouched
      ensures r == NULL && size != 0 ==> blocks == old(blocks) && LiveBytesKept(old(mem[..]), mem[..], blocks)
      // NULL means size 0 or that no gap fits a request the old block cannot hold
      ensures ptr == NULL || old(LivePtr(ptr)) ==>
                (r == NULL <==> size == 0 || (!old(InPlace(ptr, size)) && NoGap(old(blocks), Need(size))))
      // a request the old block holds changes nothing
      ensures size != 0 && old(InPlace(ptr, size)) ==> r == ptr && blocks == old(blocks) && mem[..] == old(mem[..])
      // any other block is new, and the old one is gone
      ensures r != NULL && !old(InPlace(ptr, size)) ==>
                && NewBlock(old(blocks), size, BlockAt(r))
                && LiveSet(blocks) == LiveSet(old(blocks)) - old(OwnBlock(ptr)) + {BlockAt(r)}
      ensures r == NULL && size == 0 ==> LiveSet(blocks) == LiveSet(old(blocks)) - old(OwnBlock(ptr))
      // no other live payload changes
      ensures OthersKept(old(mem[..]), mem[..], old(blocks), if old(LivePtr(ptr)) then [old(BlockAt(ptr))] else [])
    {
      hide Coalesced, Links, NoGap, GapFits, Tiles, Release, Alloc, Need, HeaderAt, Corrupts, Undersized, NewBlock,
           Step;
      ReallocNothing(blocks, ptr - base - HEADER);
      if ptr == NULL {
        r := FromNull(size);
        return;
      }
      if LivePtr(ptr) { LiveIsListed(ptr); }
      if Listed(ptr) { ListedHeader(ptr); }
      if size == 0 {
        Kfree(ptr);
        return NULL;
      }
      var h := GetHeader(ptr - base - HEADER);
      if h.magic != BLOCK_MAGIC {
        return NULL;
      }
      r := Resize(ptr, size);
    }

    /** krealloc of a null pointer is kmalloc. */
    method FromNull(size: nat) returns (r: nat)
      requires Valid() && size < WORD_LIMIT && !Undersized(blocks, size)
      modifies mem, this
      ensures Valid() && blocks == Step(old(blocks), Malloc(size))
      ensures r != NULL ==> LivePtr(r) && BlockAt(r).size >= size + HEADER
      ensures r == NULL ==> blocks == old(blocks)
      ensures r == NULL <==> size == 0 || NoGap(old(blocks), Need(size))
      ensures r != NULL ==>
                NewBlock(old(blocks), size, BlockAt(r)) && LiveSet(blocks) == LiveSet(old(blocks)) + {BlockAt(r)}
      ensures LiveBytesKept(old(mem[..]), mem[..], old(blocks))
    {
      hide Coalesced, Links, NoGap, GapFits, Tiles, Alloc, Need, HeaderAt, Corrupts, Undersized, Step, NewBlock;
      FitsMeansSized(blocks, size);
      ghost var L := blocks;
      r := Kmalloc(size);
      if r != NULL {
        NeedIsExactIff(size);
        AllocatesNew(L, blocks, size, r - HEADER - base);
      }
    }

    // -------------------------------------------------------------- buffers for one call

    /** Filling a block that was just allocated for the data, as a read into the buffer does. */
    method Fill(ptr: nat, data: seq<byte>, ghost L: Layout, ghost m0: seq<byte>)
      requires Valid() && ready && 0 < |data| <= 0xFFFF_FFD0
      requires ptr >= base + HEADER && Allocates(L, blocks, |data|, ptr - base - HEADER)
      requires LiveBytesKept(m0, mem[..], L)
      modifies mem
      ensures Valid() && LiveBytesKept(m0, mem[..], L)
      ensures ptr - base + |data| <= HEAP_SIZE && mem[ptr - base..ptr - base + |data|] == data
    {
      hide NoGap, GapFits, Coalesced, Alloc, Links;
      ghost var b := blocks[IndexOf(blocks, ptr - base - HEADER)];
      ghost var m1 := mem[..];
      NeedIsExactIff(|data|);
      LiveInside(b);
      CopyIn(ptr - base, data);
      PayloadWritesKeepLinks(m1, mem[..], b);
      OwnWritesKeepOthers(m1, mem[..], blocks, L, b);
      LiveKeptThen(m0, m1, mem[..], L);
    }

    method CopyIn(o: nat, data: seq<byte>)
      requires o + |data| <= mem.Length
      modifies mem
      ensures mem[o..o + |data|] == data
      ensures forall a :: 0 <= a < mem.Length && !(o <= a < o + |data|) ==> mem[a] == old(mem[a])
    {
      var i := 0;
      while i < |data|
        invariant 0 <= i <= |data|
        invariant forall j :: 0 <= j < i ==> mem[o + j] == data[j]
        invariant forall a :: 0 <= a < mem.Length && !(o <= a < o + i) ==> mem[a] == old(mem[a])
      {
        mem[o + i] := data[i];
        i := i + 1;
      }
    }

    /** kfree of a block allocated earlier in the same call: the layout before the allocation comes back. */
    method GiveBack(ptr: nat, ghost size: nat, ghost L: Layout, ghost m0: seq<byte>)
      requires Valid() && WellFormed(L) && ptr >= base + HEADER
      requires Allocates(L, blocks, size, ptr - base - HEADER)
      requires LiveBytesKept(m0, mem[..], L)
      modifies mem, this`blocks
      ensures Valid() && blocks == L && LiveBytesKept(m0, mem[..], L)
    {
      hide NoGap, GapFits, WellFormed, Links, Alloc, Need;
      ghost var m1 := mem[..];
      FreeUndoesMalloc(L, blocks, size, ptr - base - HEADER);
      Kfree(ptr);
      LiveKeptThen(m0, m1, mem[..], L);
    }
  }
}
