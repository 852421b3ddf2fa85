/**
 Block headers inside the bytes of g_heap, and what writing a header leaves alone.
 */
module HeapMemory {
  import opened Words
  import opened HeapLayout
  import opened Bytes

  const BLOCK_MAGIC: nat := 0xC0FF_EE42
  const FIELDS: nat := 20          // sizeof(heap_block_t)

  datatype Header = Header(magic: nat, size: nat, free: nat, next: nat, prev: nat)

  predicate FitsWords(h: Header) {
    h.magic < WORD_LIMIT && h.size < WORD_LIMIT && h.free < 256 && h.next < WORD_LIMIT && h.prev < WORD_LIMIT
  }

  function HeaderAt(m: seq<byte>, o: nat): Header
    requires o + FIELDS <= |m|
  {
    Header(WordAt(m, o), WordAt(m, o + 4), m[o + 8], WordAt(m, o + 12), WordAt(m, o + 16))
  }

  /** A header as the C structure lies in memory: five fields, the free flag followed by three bytes of padding. */
  lemma HeaderBytes(m: seq<byte>, o: nat, h: Header, pad: seq<byte>)
    requires FitsWords(h) && |pad| == 3 && o + 20 <= |m|
    requires m[o..o + 20] == Le32(h.magic) + Le32(h.size) + [h.free] + pad + Le32(h.next) + Le32(h.prev)
    ensures HeaderAt(m, o) == h
  {
    hide Le32, WordAt;
    var b := m[o..o + 20];
    SliceOfSlice(m, o, o + 20, 0, 4);
    SliceOfSlice(m, o, o + 20, 4, 8);
    SliceOfSlice(m, o, o + 20, 12, 16);
    SliceOfSlice(m, o, o + 20, 16, 20);
    assert b[0..4] == Le32(h.magic) && b[4..8] == Le32(h.size);
    assert b[12..16] == Le32(h.next) && b[16..20] == Le32(h.prev);
    WordReadsBack(m, o, h.magic);
    WordReadsBack(m, o + 4, h.size);
    WordReadsBack(m, o + 12, h.next);
    WordReadsBack(m, o + 16, h.prev);
    assert m[o + 8] == b[8];
  }

  /** The header block i of a layout must carry when g_heap lies at address `base`. */
  function HeaderFor(base: nat, L: Layout, i: nat): Header
    requires i < |L|
  {
    Header(BLOCK_MAGIC,
           L[i].size,
           if L[i].free then 1 else 0,
           if i + 1 < |L| then base + L[i + 1].start else 0,
           if i > 0 then base + L[i - 1].start else 0)
  }

  ghost predicate LinkedAt(m: seq<byte>, base: nat, L: Layout, i: nat) {
    && i < |L| && L[i].start + FIELDS <= |m|
    && HeaderAt(m, L[i].start) == HeaderFor(base, L, i)
  }

  /** The headers in memory spell out the tiling L, forwards and backwards. */
  ghost predicate Links(m: seq<byte>, base: nat, L: Layout) {
    && |m| == HEAP_SIZE
    && Tiles(L, 0, HEAP_SIZE)
    && (forall i :: 0 <= i < |L| ==> LinkedAt(m, base, L, i))
  }

  /** m' is m with header h written at offset o: no byte outside the header differs. */
  ghost predicate Writes(m: seq<byte>, m': seq<byte>, o: nat, h: Header) {
    && |m'| == |m| && o + FIELDS <= |m|
    && HeaderAt(m', o) == h
    && (forall a :: 0 <= a < |m| && !(o <= a < o + FIELDS) ==> m'[a] == m[a])
  }

  /** The repair of a back link: the header at address p, if there is one, gets the previous block v. */
  ghost predicate SetsPrev(m: seq<byte>, m': seq<byte>, base: nat, p: nat, v: nat) {
    if p == 0 then m' == m
    else
      && base <= p && p - base + FIELDS <= |m|
      && Writes(m, m', p - base, HeaderAt(m, p - base).(prev := v))
  }

  /** Offset `a` of g_heap belongs to the payload of block b. */
  ghost predicate InPayload(b: Block, a: int) {
    b.start + HEADER <= a < b.End() && a < HEAP_SIZE
  }

  lemma SameHeader(m: seq<byte>, m': seq<byte>, q: nat)
    requires |m'| == |m| && q + FIELDS <= |m| && forall a :: q <= a < q + FIELDS ==> m'[a] == m[a]
    ensures HeaderAt(m', q) == HeaderAt(m, q)
  {
  }

  lemma WritesApart(m: seq<byte>, m': seq<byte>, o: nat, h: Header, q: nat)
    requires Writes(m, m', o, h) && q + FIELDS <= |m| && (q + FIELDS <= o || o + FIELDS <= q)
    ensures HeaderAt(m', q) == HeaderAt(m, q)
  {
    assert forall a :: q <= a < q + FIELDS ==> m'[a] == m[a];
  }

  lemma SetsPrevApart(m: seq<byte>, m': seq<byte>, base: nat, p: nat, v: nat, q: nat)
    requires SetsPrev(m, m', base, p, v) && q + FIELDS <= |m|
    requires p != 0 ==> q + FIELDS <= p - base || p - base + FIELDS <= q
    ensures |m'| == |m| && HeaderAt(m', q) == HeaderAt(m, q)
  {
    if p != 0 {
      WritesApart(m, m', p - base, HeaderAt(m, p - base).(prev := v), q);
    }
  }

  /** Two blocks of a tiling do not overlap, and both lie inside the heap. */
  lemma Apart(L: Layout, i: nat, j: nat)
    requires Tiles(L, 0, HEAP_SIZE) && i < |L| && j < |L|
    ensures L[i].End() <= HEAP_SIZE && L[j].End() <= HEAP_SIZE
    ensures L[i].size >= HEADER && L[j].size >= HEADER
    ensures i < j ==> L[i].End() <= L[j].start
    ensures j < i ==> L[j].End() <= L[i].start
  {
    Ascending(L, 0, HEAP_SIZE);
  }

  // ---------------------------------------------------------------- split_block

  lemma TwoTiles(b: Block, c: Block)
    requires b.size >= HEADER && b.size % 16 == 0 && c.size >= HEADER && c.size % 16 == 0
    requires b.End() == c.start
    ensures Tiles([b, c], b.start, c.End())
  {
  }

  lemma SplitShape(L: Layout, k: nat, need: nat)
    requires Tiles(L, 0, HEAP_SIZE) && k < |L| && L[k].size % 16 == 0
    requires HEADER <= need && need % 16 == 0 && need + HEADER + HEAP_ALIGN < L[k].size
    ensures Tiles(Split(L, k, need), 0, HEAP_SIZE)
  {
    hide Tiles, Coalesced, LiveSet;
    var b := L[k];
    var used, rest := Block(b.start, need, b.free), Block(b.start + need, b.size - need, true);
    TwoTiles(used, rest);
    TilesCut(L, k, 0, HEAP_SIZE);
    Patch(L[..k], [used, rest], L[k + 1..], b.start, b.End());
  }

  /** The three header writes of split_block, in program order. */
  ghost predicate SplitWrites(m0: seq<byte>, m1: seq<byte>, m2: seq<byte>, m3: seq<byte>,
                              base: nat, L: Layout, k: nat, need: nat)
  {
    && Links(m0, base, L) && k < |L| && base > 0
    && HEADER <= need && need % 16 == 0 && need + HEADER + HEAP_ALIGN < L[k].size
    && var o := L[k].start;
       var h := HeaderFor(base, L, k);
       && Writes(m0, m1, o + need, Header(BLOCK_MAGIC, h.size - need, 1, h.next, base + o))
       && SetsPrev(m1, m2, base, h.next, base + o + need)
       && Writes(m2, m3, o, h.(next := base + o + need, size := need))
  }

  lemma SplitFar(m0: seq<byte>, m1: seq<byte>, m2: seq<byte>, m3: seq<byte>,
                 base: nat, L: Layout, k: nat, need: nat, j: nat)
    requires SplitWrites(m0, m1, m2, m3, base, L, k, need) && j < |L| && j != k && j != k + 1
    ensures |m3| == HEAP_SIZE && L[j].start + FIELDS <= HEAP_SIZE
    ensures HeaderAt(m3, L[j].start) == HeaderFor(base, L, j)
  {
    hide HeaderAt, Tiles;
    assert LinkedAt(m0, base, L, j);
    var h := HeaderFor(base, L, k);
    var o, q := L[k].start, L[j].start;
    Apart(L, k, j);
    WritesApart(m0, m1, o + need, Header(BLOCK_MAGIC, h.size - need, 1, h.next, base + o), q);
    if k + 1 < |L| { Apart(L, k + 1, j); }
    SetsPrevApart(m1, m2, base, h.next, base + o + need, q);
    WritesApart(m2, m3, o, h.(next := base + o + need, size := need), q);
  }

  lemma SplitNear(m0: seq<byte>, m1: seq<byte>, m2: seq<byte>, m3: seq<byte>,
                  base: nat, L: Layout, k: nat, need: nat)
    requires SplitWrites(m0, m1, m2, m3, base, L, k, need)
    ensures var S := Split(L, k, need);
            && LinkedAt(m3, base, S, k) && LinkedAt(m3, base, S, k + 1)
            && (k + 1 < |L| ==> LinkedAt(m3, base, S, k + 2))
  {
    hide HeaderAt, Tiles;
    assert LinkedAt(m0, base, L, k);
    var h := HeaderFor(base, L, k);
    var o := L[k].start;
    Apart(L, k, k);
    WritesApart(m2, m3, o, h.(next := base + o + need, size := need), o + need);
    if k + 1 < |L| {
      assert LinkedAt(m0, base, L, k + 1);
      Apart(L, k, k + 1);
      var q := L[k + 1].start;
      WritesApart(m0, m1, o + need, Header(BLOCK_MAGIC, h.size - need, 1, h.next, base + o), q);
      WritesApart(m2, m3, o, h.(next := base + o + need, size := need), q);
    }
    SetsPrevApart(m1, m2, base, h.next, base + o + need, o + need);
  }

  lemma SplitIndex(L: Layout, k: nat, need: nat, i: nat)
    requires k < |L| && need + HEADER + HEAP_ALIGN < L[k].size
    ensures var S := Split(L, k, need);
            && |S| == |L| + 1
            && (i < k ==> S[i] == L[i] && S[i + 1].start == L[i + 1].start && (i > 0 ==> S[i - 1] == L[i - 1]))
            && (k + 2 < i <= |L| ==> S[i] == L[i - 1] && S[i - 1] == L[i - 2] && (i < |L| ==> S[i + 1] == L[i]))
  {
  }

  lemma SplitLinkAt(m0: seq<byte>, m1: seq<byte>, m2: seq<byte>, m3: seq<byte>,
                    base: nat, L: Layout, k: nat, need: nat, i: nat)
    requires SplitWrites(m0, m1, m2, m3, base, L, k, need) && i <= |L|
    ensures LinkedAt(m3, base, Split(L, k, need), i)
  {
    hide HeaderAt, Tiles, Split, Writes, SetsPrev, Links;
    SplitIndex(L, k, need, i);
    if i < k {
      SplitFar(m0, m1, m2, m3, base, L, k, need, i);
    } else if i > k + 2 {
      SplitFar(m0, m1, m2, m3, base, L, k, need, i - 1);
    } else {
      SplitNear(m0, m1, m2, m3, base, L, k, need);
    }
  }

  lemma SplitLinks(m0: seq<byte>, m1: seq<byte>, m2: seq<byte>, m3: seq<byte>,
                   base: nat, L: Layout, k: nat, need: nat)
    requires SplitWrites(m0, m1, m2, m3, base, L, k, need)
    ensures Links(m3, base, Split(L, k, need))
  {
    hide HeaderAt, Split, LinkedAt;
    SplitShape(L, k, need);
    SplitIndex(L, k, need, 0);
    forall i | 0 <= i < |Split(L, k, need)| ensures LinkedAt(m3, base, Split(L, k, need), i) {
      SplitLinkAt(m0, m1, m2, m3, base, L, k, need, i);
    }
  }

  /** split_block writes no payload byte of any other block. */
  lemma SplitKeepsPayload(m0: seq<byte>, m1: seq<byte>, m2: seq<byte>, m3: seq<byte>,
                          base: nat, L: Layout, k: nat, need: nat, j: nat, a: nat)
    requires SplitWrites(m0, m1, m2, m3, base, L, k, need)
    requires j < |L| && j != k && InPayload(L[j], a)
    ensures |m3| == |m0| && m3[a] == m0[a]
  {
    hide HeaderAt, Tiles;
    Apart(L, k, j);
    if k + 1 < |L| { Apart(L, k + 1, j); }
  }

  // ---------------------------------------------------------------- a split at less than a header

  /**
   The memory after split_block cut block k at fewer bytes than a header takes: the two
   headers overlay each other, those before them are intact.
   */
  ghost predicate Overlaid(m: seq<byte>, base: nat, L: Layout, k: nat, need: nat) {
    && |m| == HEAP_SIZE && Tiles(L, 0, HEAP_SIZE) && k < |L| && need < HEADER && base > 0
    && L[k].start + FIELDS <= HEAP_SIZE && HeaderAt(m, L[k].start).size == need
    && (need == 0 ==> HeaderAt(m, L[k].start).next == base + L[k].start)
    && (forall j :: 0 <= j < k ==> LinkedAt(m, base, L, j))
  }

  /** The header writes of split_block for any total: the last one starts from what memory holds by then. */
  ghost predicate CutWrites(m0: seq<byte>, m1: seq<byte>, m2: seq<byte>, m3: seq<byte>,
                            base: nat, L: Layout, k: nat, need: nat)
  {
    && Links(m0, base, L) && k < |L| && base > 0
    && need % 16 == 0 && need + HEADER + HEAP_ALIGN < L[k].size
    && var o := L[k].start;
       var h := HeaderFor(base, L, k);
       && Writes(m0, m1, o + need, Header(BLOCK_MAGIC, h.size - need, 1, h.next, base + o))
       && SetsPrev(m1, m2, base, h.next, base + o + need)
       && o + FIELDS <= |m2| && Writes(m2, m3, o, HeaderAt(m2, o).(next := base + o + need, size := need))
  }

  lemma CutBefore(m0: seq<byte>, m1: seq<byte>, m2: seq<byte>, m3: seq<byte>,
                  base: nat, L: Layout, k: nat, need: nat, j: nat)
    requires CutWrites(m0, m1, m2, m3, base, L, k, need) && j < k
    ensures LinkedAt(m3, base, L, j)
  {
    hide HeaderAt, Tiles;
    assert LinkedAt(m0, base, L, j);
    var h := HeaderFor(base, L, k);
    var o, q := L[k].start, L[j].start;
    Apart(L, k, j);
    WritesApart(m0, m1, o + need, Header(BLOCK_MAGIC, h.size - need, 1, h.next, base + o), q);
    if k + 1 < |L| { Apart(L, k + 1, j); }
    SetsPrevApart(m1, m2, base, h.next, base + o + need, q);
    WritesApart(m2, m3, o, HeaderAt(m2, o).(next := base + o + need, size := need), q);
  }

  lemma CutOverlays(m0: seq<byte>, m1: seq<byte>, m2: seq<byte>, m3: seq<byte>,
                    base: nat, L: Layout, k: nat, need: nat)
    requires CutWrites(m0, m1, m2, m3, base, L, k, need) && need < HEADER
    ensures Overlaid(m3, base, L, k, need)
  {
    hide HeaderAt, LinkedAt, Tiles;
    forall j | 0 <= j < k ensures LinkedAt(m3, base, L, j) {
      CutBefore(m0, m1, m2, m3, base, L, k, need, j);
    }
  }

  /** From a header upwards the writes are those of a proper split. */
  lemma CutSplits(m0: seq<byte>, m1: seq<byte>, m2: seq<byte>, m3: seq<byte>,
                  base: nat, L: Layout, k: nat, need: nat)
    requires CutWrites(m0, m1, m2, m3, base, L, k, need) && need >= HEADER
    ensures SplitWrites(m0, m1, m2, m3, base, L, k, need)
  {
    hide HeaderAt, Tiles;
    assert LinkedAt(m0, base, L, k);
    var h := HeaderFor(base, L, k);
    var o := L[k].start;
    Apart(L, k, k);
    WritesApart(m0, m1, o + need, Header(BLOCK_MAGIC, h.size - need, 1, h.next, base + o), o);
    if k + 1 < |L| { Apart(L, k, k + 1); }
    SetsPrevApart(m1, m2, base, h.next, base + o + need, o);
  }

  /** A list that runs through an overlaid header visits the old blocks up to it. */
  lemma {:induction false} SamePrefix(m: seq<byte>, base: nat, L: Layout, k: nat, need: nat, R: Layout, j: nat)
    requires Overlaid(m, base, L, k, need) && Links(m, base, R) && j <= k
    ensures j < |R| && R[j].start == L[j].start
    decreases j
  {
    hide HeaderAt, Tiles;
    TilesFromStart(L);
    TilesFromStart(R);
    if j > 0 {
      SamePrefix(m, base, L, k, need, R, j - 1);
      assert LinkedAt(m, base, R, j - 1) && LinkedAt(m, base, L, j - 1);
      TilesStep(L, j - 1);
      TilesStep(R, j - 1);
      Apart(L, j, j);
    }
  }

  lemma TilesFromStart(L: Layout)
    requires Tiles(L, 0, HEAP_SIZE)
    ensures L != [] && L[0].start == 0
  {
  }

  lemma TilesStep(L: Layout, i: nat)
    requires Tiles(L, 0, HEAP_SIZE) && i < |L|
    ensures L[i].End() == (if i + 1 < |L| then L[i + 1].start else HEAP_SIZE)
  {
  }

  /** Nothing is left that the headers in memory could spell. */
  lemma OverlaidIsNoList(m: seq<byte>, base: nat, L: Layout, k: nat, need: nat, R: Layout)
    requires Overlaid(m, base, L, k, need)
    ensures !Links(m, base, R)
  {
    hide HeaderAt;
    if Links(m, base, R) {
      SamePrefix(m, base, L, k, need, R, k);
      LinkedSize(m, base, R, k);
    }
  }

  lemma LinkedSize(m: seq<byte>, base: nat, R: Layout, k: nat)
    requires Links(m, base, R) && k < |R|
    ensures R[k].start + FIELDS <= |m| && HeaderAt(m, R[k].start).size >= HEADER
  {
    assert LinkedAt(m, base, R, k);
  }

  /**
   Whether a split leaves a list at all: for every total that is a multiple of 16 and
   short of the block, some layout is linked afterwards exactly if the total covers a header.
   */
  lemma CutKeepsListIff(m0: seq<byte>, m1: seq<byte>, m2: seq<byte>, m3: seq<byte>,
                        base: nat, L: Layout, k: nat, need: nat)
    requires CutWrites(m0, m1, m2, m3, base, L, k, need)
    ensures (exists R :: Links(m3, base, R)) <==> need >= HEADER
  {
    hide CutWrites, SplitWrites, Overlaid, Links;
    if need >= HEADER {
      CutSplits(m0, m1, m2, m3, base, L, k, need);
      SplitLinks(m0, m1, m2, m3, base, L, k, need);
    } else {
      CutOverlays(m0, m1, m2, m3, base, L, k, need);
      forall R ensures !Links(m3, base, R) {
        OverlaidIsNoList(m3, base, L, k, need, R);
      }
    }
  }

  /** The address reached from p by following n next pointers; 0 ends the list. */
  function Follow(m: seq<byte>, base: nat, p: nat, n: nat): nat
    decreases n
  {
    if n == 0 || p < base || p - base + FIELDS > |m| then p
    else Follow(m, base, HeaderAt(m, p - base).next, n - 1)
  }

  lemma {:induction false} StuckAt(m: seq<byte>, base: nat, p: nat, n: nat)
    requires base <= p && p - base + FIELDS <= |m| && HeaderAt(m, p - base).next == p
    ensures Follow(m, base, p, n) == p
  {
    if n > 0 {
      StuckAt(m, base, p, n - 1);
    }
  }

  /**
   A total of 0 links the header to itself: a walk from the head of the list, as kmalloc
   makes it, never comes to an end.
   */
  lemma {:induction false} WalkNeverEnds(m: seq<byte>, base: nat, L: Layout, k: nat, i: nat, n: nat)
    requires Overlaid(m, base, L, k, 0) && i <= k
    ensures Follow(m, base, base + L[i].start, n) >= base > 0
    decreases k - i
  {
    hide HeaderAt, Tiles;
    Apart(L, i, k);
    if i == k {
      StuckAt(m, base, base + L[k].start, n);
    } else if n > 0 {
      assert LinkedAt(m, base, L, i);
      WalkNeverEnds(m, base, L, k, i + 1, n - 1);
    }
  }

  /** 0xFFFFFFE0 bytes asked of the fresh heap: one header, linked to itself, and no list. */
  lemma WrappingRequestBreaksList(m0: seq<byte>, m1: seq<byte>, m3: seq<byte>, base: nat)
    requires Links(m0, base, FRESH) && base > 0
    requires Writes(m0, m1, 0, Header(BLOCK_MAGIC, HEAP_SIZE, 1, 0, base))
    requires Writes(m1, m3, 0, HeaderAt(m1, 0).(next := base, size := 0))
    ensures Need(0xFFFF_FFE0) == 0
    ensures HeaderAt(m3, 0).next == base && HeaderAt(m3, 0).prev == base
    ensures forall R :: !Links(m3, base, R)
    ensures forall n: nat :: Follow(m3, base, base, n) == base
  {
    hide HeaderAt;
    assert CutWrites(m0, m1, m1, m3, base, FRESH, 0, 0);
    CutKeepsListIff(m0, m1, m1, m3, base, FRESH, 0, 0);
    forall n: nat ensures Follow(m3, base, base, n) == base { StuckAt(m3, base, base, n); }
  }

  // ---------------------------------------------------------------- merge_with_next

  lemma MergedTile(L: Layout, k: nat, b: Block)
    requires Tiles(L, 0, HEAP_SIZE) && k + 1 < |L| && b == L[k].(size := L[k].size + L[k + 1].size)
    ensures Tiles([b], b.start, b.End()) && b.End() == L[k + 1].End()
  {
  }

  lemma MergeShape(L: Layout, k: nat)
    requires Tiles(L, 0, HEAP_SIZE) && k < |L|
    ensures Tiles(MergeNext(L, k), 0, HEAP_SIZE)
  {
    if k + 1 < |L| && L[k + 1].free {
      var b := L[k].(size := L[k].size + L[k + 1].size);
      hide Tiles;
      MergedTile(L, k, b);
      TilesCut(L, k, 0, HEAP_SIZE);
      TilesCut(L, k + 1, 0, HEAP_SIZE);
      Patch(L[..k], [b], L[k + 2..], b.start, b.End());
    }
  }

  /** A free block absorbing its free neighbour changes no live block. */
  lemma MergeLive(L: Layout, k: nat)
    requires k < |L| && L[k].free
    ensures LiveSet(MergeNext(L, k)) == LiveSet(L)
  {
    if k + 1 < |L| && L[k + 1].free {
      var b := L[k].(size := L[k].size + L[k + 1].size);
      assert L == L[..k] + [L[k], L[k + 1]] + L[k + 2..];
      LiveMiddle(L[..k], [L[k], L[k + 1]], L[k + 2..]);
      LiveMiddle(L[..k], [b], L[k + 2..]);
      assert LiveSet([b]) == {} == LiveSet([L[k], L[k + 1]]);
    }
  }

  /** The header writes of merge_with_next, in program order. */
  ghost predicate MergeWrites(m0: seq<byte>, m1: seq<byte>, m2: seq<byte>, base: nat, L: Layout, k: nat)
  {
    && Links(m0, base, L) && k + 1 < |L| && L[k + 1].free && base > 0
    && var o := L[k].start;
       var h, n := HeaderFor(base, L, k), HeaderFor(base, L, k + 1);
       && Writes(m0, m1, o, h.(size := h.size + n.size, next := n.next))
       && SetsPrev(m1, m2, base, n.next, base + o)
  }

  lemma MergeFar(m0: seq<byte>, m1: seq<byte>, m2: seq<byte>, base: nat, L: Layout, k: nat, j: nat)
    requires MergeWrites(m0, m1, m2, base, L, k) && j < |L| && (j < k || j > k + 2)
    ensures |m2| == HEAP_SIZE && L[j].start + FIELDS <= HEAP_SIZE
    ensures HeaderAt(m2, L[j].start) == HeaderFor(base, L, j)
  {
    hide HeaderAt, Tiles;
    assert LinkedAt(m0, base, L, j);
    var h, n := HeaderFor(base, L, k), HeaderFor(base, L, k + 1);
    Apart(L, k, j);
    if k + 2 < |L| { Apart(L, k + 2, j); }
    WritesApart(m0, m1, L[k].start, h.(size := h.size + n.size, next := n.next), L[j].start);
    SetsPrevApart(m1, m2, base, n.next, base + L[k].start, L[j].start);
  }

  lemma MergeNear(m0: seq<byte>, m1: seq<byte>, m2: seq<byte>, base: nat, L: Layout, k: nat)
    requires MergeWrites(m0, m1, m2, base, L, k)
    ensures LinkedAt(m2, base, MergeNext(L, k), k)
    ensures k + 2 < |L| ==> LinkedAt(m2, base, MergeNext(L, k), k + 1)
  {
    hide HeaderAt, Tiles;
    assert LinkedAt(m0, base, L, k);
    var h, n := HeaderFor(base, L, k), HeaderFor(base, L, k + 1);
    var h' := h.(size := h.size + n.size, next := n.next);
    if k + 2 < |L| {
      Apart(L, k, k + 2);
      assert LinkedAt(m0, base, L, k + 2);
      WritesApart(m0, m1, L[k].start, h', L[k + 2].start);
    }
    SetsPrevApart(m1, m2, base, n.next, base + L[k].start, L[k].start);
  }

  lemma MergeIndex(L: Layout, k: nat, i: nat)
    requires k + 1 < |L| && L[k + 1].free
    ensures var M := MergeNext(L, k);
            && |M| == |L| - 1
            && (i < k ==> M[i] == L[i] && M[i + 1].start == L[i + 1].start && (i > 0 ==> M[i - 1] == L[i - 1]))
            && (k + 1 < i < |M| ==>
                  M[i] == L[i + 1] && M[i - 1] == L[i] && (i + 1 < |M| ==> M[i + 1] == L[i + 2]))
  {
  }

  lemma MergeLinkAt(m0: seq<byte>, m1: seq<byte>, m2: seq<byte>, base: nat, L: Layout, k: nat, i: nat)
    requires MergeWrites(m0, m1, m2, base, L, k) && i + 1 < |L|
    ensures LinkedAt(m2, base, MergeNext(L, k), i)
  {
    hide HeaderAt, Tiles, MergeNext, Writes, SetsPrev, Links;
    MergeIndex(L, k, i);
    if i < k {
      MergeFar(m0, m1, m2, base, L, k, i);
    } else if i > k + 1 {
      MergeFar(m0, m1, m2, base, L, k, i + 1);
    } else {
      MergeNear(m0, m1, m2, base, L, k);
    }
  }

  lemma MergeLinks(m0: seq<byte>, m1: seq<byte>, m2: seq<byte>, base: nat, L: Layout, k: nat)
    requires MergeWrites(m0, m1, m2, base, L, k)
    ensures Links(m2, base, MergeNext(L, k))
  {
    hide HeaderAt, MergeNext, LinkedAt, Tiles;
    MergeShape(L, k);
    MergeIndex(L, k, 0);
    forall i | 0 <= i < |MergeNext(L, k)| ensures LinkedAt(m2, base, MergeNext(L, k), i) {
      MergeLinkAt(m0, m1, m2, base, L, k, i);
    }
  }

  lemma MergeKeepsPayload(m0: seq<byte>, m1: seq<byte>, m2: seq<byte>, base: nat, L: Layout, k: nat,
                          j: nat, a: nat)
    requires MergeWrites(m0, m1, m2, base, L, k) && j < |L| && InPayload(L[j], a)
    ensures |m2| == |m0| && m2[a] == m0[a]
  {
    hide HeaderAt, Tiles;
    Apart(L, k, j);
    if k + 2 < |L| { Apart(L, k + 2, j); }
  }

  // ---------------------------------------------------------------- the free flag

  lemma FlagLinks(m: seq<byte>, m': seq<byte>, base: nat, L: Layout, k: nat, free: bool)
    requires Links(m, base, L) && k < |L|
    requires Writes(m, m', L[k].start, HeaderFor(base, L, k).(free := if free then 1 else 0))
    ensures Links(m', base, L[k := L[k].(free := free)])
  {
    hide HeaderAt;
    var F := L[k := L[k].(free := free)];
    forall i | 0 <= i < |F| ensures LinkedAt(m', base, F, i) {
      assert LinkedAt(m, base, L, i);
      Apart(L, i, k);
      if i != k {
        WritesApart(m, m', L[k].start, HeaderFor(base, L, k).(free := if free then 1 else 0), L[i].start);
      }
    }
  }

  lemma FlagKeepsPayload(m: seq<byte>, m': seq<byte>, base: nat, L: Layout, k: nat, h: Header, j: nat, a: nat)
    requires Links(m, base, L) && k < |L| && Writes(m, m', L[k].start, h)
    requires j < |L| && InPayload(L[j], a)
    ensures m'[a] == m[a]
  {
    hide HeaderAt, Tiles;
    Apart(L, k, j);
  }
}
