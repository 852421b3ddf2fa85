/**
 The kernel heap seen as a value: the list of blocks that tile g_heap.

 `Alloc` and `Release` say what kmalloc and kfree do to that list.  The class in
 KernelHeap.dfy keeps the list as headers inside a byte array and refines these
 functions; everything promised about layouts is proved here.
 */
module HeapLayout {
  import opened Words

  const HEAP_SIZE: nat := 524288
  const HEADER: nat := 32          // sizeof(heap_block_t) == 20, rounded up to HEAP_ALIGN
  const HEAP_ALIGN: nat := 16

  /** One heap block: a header at offset `start` of g_heap, `size` bytes in all. */
  datatype Block = Block(start: nat, size: nat, free: bool) {
    function End(): nat { start + size }
  }

  type Layout = seq<Block>

  const FRESH: Layout := [Block(0, HEAP_SIZE, true)]

  // ---------------------------------------------------------------- request sizes

  /** Header plus aligned request, as kmalloc and split_block compute it in 32 bits. */
  function Need(size: nat): nat {
    (AlignUp32(size, HEAP_ALIGN) + HEADER) % WORD_LIMIT
  }

  /** The smallest multiple of 16 that holds `size` bytes, over unbounded integers. */
  function RoundUp16(size: nat): nat { (size + 15) / 16 * 16 }

  /** Requests for which split_block would place a header inside the header before it. */
  predicate Clobbers(size: nat) { 0xFFFF_FFD0 < size <= 0xFFFF_FFF0 }

  /**
   The 32-bit computation is the intended one exactly up to 0xFFFFFFD0.  Above that,
   16-byte requests short of the wrap leave less than a header, and the last fifteen
   sizes leave a header with no payload at all.
   */
  lemma NeedIsExactIff(size: nat)
    requires 0 < size < WORD_LIMIT
    ensures Need(size) == RoundUp16(size) + HEADER <==> size <= 0xFFFF_FFD0
    ensures Need(size) >= size + HEADER <==> size <= 0xFFFF_FFD0
    ensures Need(size) < HEADER <==> Clobbers(size)
    ensures size > 0xFFFF_FFF0 ==> Need(size) == HEADER
    ensures Need(size) % 16 == 0
  {
    var sum := size + 15;
    if size <= 0xFFFF_FFF0 {
      assert AlignUp32(size, HEAP_ALIGN) == sum - sum % 16 == RoundUp16(size);
    } else {
      assert sum % WORD_LIMIT == sum - WORD_LIMIT < 16;
      assert AlignUp32(size, HEAP_ALIGN) == 0;
    }
  }

  // ---------------------------------------------------------------- well-formed layouts

  /** The blocks cover [lo, hi) in ascending order without gap or overlap. */
  ghost predicate Tiles(L: Layout, lo: nat, hi: nat) {
    && (if L == [] then lo == hi else L[0].start == lo && L[|L| - 1].End() == hi)
    && (forall i :: 0 <= i < |L| ==> L[i].size >= HEADER && L[i].size % 16 == 0)
    && (forall i :: 0 < i < |L| ==> L[i - 1].End() == L[i].start)
  }

  /** No two neighbouring blocks are both free. */
  ghost predicate Coalesced(L: Layout) {
    forall i :: 0 < i < |L| ==> !(L[i - 1].free && L[i].free)
  }

  ghost predicate WellFormed(L: Layout) {
    Tiles(L, 0, HEAP_SIZE) && Coalesced(L)
  }

  lemma SumAligned(a: nat, b: nat)
    requires a % 16 == 0 && b % 16 == 0
    ensures (a + b) % 16 == 0
  {
  }

  /** The first block of a tiling, and the tiling behind it. */
  lemma TilesHead(L: Layout, lo: nat, hi: nat)
    requires Tiles(L, lo, hi)
    ensures L == [] ==> lo == hi
    ensures L != [] ==>
              && L[0].start == lo && L[0].size >= HEADER && L[0].size % 16 == 0
              && Tiles(L[1..], L[0].End(), hi)
  {
    if L != [] {
      TilesSuffix(L, 1, lo, hi);
      assert |L| > 1 ==> L[1].start == L[0].End();
    }
  }

  /** Tiling is local; ascending, disjoint and 16-aligned follow by induction. */
  lemma {:induction false} Ascending(L: Layout, lo: nat, hi: nat)
    requires Tiles(L, lo, hi)
    ensures lo <= hi
    ensures forall i :: 0 <= i < |L| ==> lo <= L[i].start && L[i].End() <= hi
    ensures forall i, j :: 0 <= i < j < |L| ==> L[i].End() <= L[j].start
    ensures lo % 16 == 0 ==> forall i :: 0 <= i < |L| ==> L[i].start % 16 == 0
  {
    hide Tiles;
    TilesHead(L, lo, hi);
    if L != [] {
      var rest := L[1..];
      Ascending(rest, L[0].End(), hi);
      if lo % 16 == 0 { SumAligned(lo, L[0].size); }
      assert forall i :: 0 < i < |L| ==> L[i] == rest[i - 1];
    }
  }

  /** Every address of a tiled range lies in a block. */
  lemma {:induction false} BlockOf(L: Layout, lo: nat, hi: nat, a: nat) returns (k: nat)
    requires Tiles(L, lo, hi) && lo <= a < hi
    ensures k < |L| && L[k].start <= a < L[k].End()
  {
    if a < L[0].End() {
      k := 0;
    } else {
      var rest := L[1..];
      assert forall i :: 0 < i < |rest| ==> rest[i - 1] == L[i] && rest[i] == L[i + 1];
      k := BlockOf(rest, L[0].End(), hi, a);
      k := k + 1;
    }
  }

  lemma OneTile(b: Block)
    requires b.size >= HEADER && b.size % 16 == 0
    ensures Tiles([b], b.start, b.End()) && Coalesced([b])
  {
  }

  /** Two tilings that meet make one. */
  lemma TilesConcat(A: Layout, B: Layout, lo: nat, mid: nat, hi: nat)
    requires Tiles(A, lo, mid) && Tiles(B, mid, hi)
    ensures Tiles(A + B, lo, hi)
  {
    var L := A + B;
    forall i | 0 <= i < |L| ensures L[i].size >= HEADER && L[i].size % 16 == 0 {
      assert L[i] == if i < |A| then A[i] else B[i - |A|];
    }
    forall i | 0 < i < |L| ensures L[i - 1].End() == L[i].start {
      assert L[i] == if i < |A| then A[i] else B[i - |A|];
      assert L[i - 1] == if i - 1 < |A| then A[i - 1] else B[i - 1 - |A|];
    }
  }

  /** A tiling can be cut in front of any of its blocks. */
  lemma TilesSuffix(L: Layout, k: nat, lo: nat, hi: nat)
    requires Tiles(L, lo, hi) && k <= |L|
    ensures Tiles(L[k..], if k < |L| then L[k].start else hi, hi)
  {
    var S := L[k..];
    assert forall i :: 0 <= i < |S| ==> S[i] == L[k + i];
    forall i | 0 < i < |S| ensures S[i - 1].End() == S[i].start {
      assert S[i] == L[k + i] && S[i - 1] == L[k + i - 1];
    }
  }

  lemma TilesCut(L: Layout, k: nat, lo: nat, hi: nat)
    requires Tiles(L, lo, hi) && k < |L|
    ensures Tiles(L[..k], lo, L[k].start) && Tiles(L[k + 1..], L[k].End(), hi)
  {
    TilesSuffix(L, k + 1, lo, hi);
  }

  lemma CoalescedConcat(A: Layout, B: Layout)
    ensures Coalesced(A + B) <==>
            && Coalesced(A) && Coalesced(B)
            && (A != [] && B != [] ==> !(A[|A| - 1].free && B[0].free))
  {
    var L := A + B;
    assert forall i :: 0 <= i < |A| ==> L[i] == A[i];
    assert forall i :: 0 <= i < |B| ==> L[|A| + i] == B[i];
    if Coalesced(L) {
      forall i | 0 < i < |B| ensures !(B[i - 1].free && B[i].free) {
        assert L[|A| + i - 1] == B[i - 1] && L[|A| + i] == B[i];
      }
      if A != [] && B != [] {
        assert L[|A| - 1] == A[|A| - 1] && L[|A|] == B[0];
      }
    }
    if Coalesced(A) && Coalesced(B) && (A != [] && B != [] ==> !(A[|A| - 1].free && B[0].free)) {
      forall i | 0 < i < |L| ensures !(L[i - 1].free && L[i].free) {
        if i > |A| {
          assert L[i - 1] == B[i - 1 - |A|] && L[i] == B[i - |A|];
        }
      }
    }
  }

  lemma LiveConcat(A: Layout, B: Layout)
    ensures LiveSet(A + B) == LiveSet(A) + LiveSet(B)
  {
    var L := A + B;
    forall b | b in LiveSet(A) ensures b in LiveSet(L) {
      var i :| 0 <= i < |A| && !A[i].free && A[i] == b;
      assert L[i] == b;
    }
    forall b | b in LiveSet(B) ensures b in LiveSet(L) {
      var i :| 0 <= i < |B| && !B[i].free && B[i] == b;
      assert L[|A| + i] == b;
    }
  }

  // ---------------------------------------------------------------- kmalloc

  /** The first block, in address order, that is free and large enough; |L| if there is none. */
  function FirstFit(L: Layout, need: nat): (k: nat)
    ensures k <= |L|
    ensures k < |L| ==> L[k].free && L[k].size >= need
    ensures forall i :: 0 <= i < k ==> !(L[i].free && L[i].size >= need)
  {
    if L == [] || (L[0].free && L[0].size >= need) then 0
    else 1 + FirstFit(L[1..], need)
  }

  /** split_block: cut `need` bytes off block k if the remainder is worth a header. */
  function Split(L: Layout, k: nat, need: nat): Layout
    requires k < |L|
  {
    var b := L[k];
    if b.size <= need + HEADER + HEAP_ALIGN then L
    else L[..k] + [Block(b.start, need, b.free), Block(b.start + need, b.size - need, true)] + L[k + 1..]
  }

  function Take(L: Layout, k: nat): Layout
    requires k < |L|
  {
    L[k := L[k].(free := false)]
  }

  /** What a successful kmalloc does to the layout. */
  function AllocAt(L: Layout, k: nat, need: nat): Layout
    requires k < |L|
  {
    var S := Split(L, k, need);
    assert k < |S|;
    Take(S, k)
  }

  function Alloc(L: Layout, need: nat): Layout {
    var k := FirstFit(L, need);
    if k == |L| then L else AllocAt(L, k, need)
  }

  // ---------------------------------------------------------------- kfree

  /** merge_with_next: swallow the following block if it is free. */
  function MergeNext(L: Layout, k: nat): Layout
    requires k < |L|
  {
    if k + 1 < |L| && L[k + 1].free
    then L[..k] + [L[k].(size := L[k].size + L[k + 1].size)] + L[k + 2..]
    else L
  }

  function Release(L: Layout, k: nat): Layout
    requires k < |L|
  {
    var M := MergeNext(L[k := L[k].(free := true)], k);
    assert k < |M|;
    if k > 0 && M[k - 1].free then MergeNext(M, k - 1) else M
  }

  // ---------------------------------------------------------------- live blocks

  ghost function LiveSet(L: Layout): set<Block> {
    set i | 0 <= i < |L| && !L[i].free :: L[i]
  }

  /** Byte `a` of the heap belongs to a live block. */
  ghost predicate LiveAt(L: Layout, a: nat) {
    exists i :: 0 <= i < |L| && !L[i].free && L[i].start <= a < L[i].End()
  }

  /** [lo, hi) holds no live byte and cannot be extended; it mentions no free block. */
  ghost predicate MaximalGap(L: Layout, lo: nat, hi: nat) {
    && lo < hi <= HEAP_SIZE
    && (forall a :: lo <= a < hi ==> !LiveAt(L, a))
    && (lo == 0 || LiveAt(L, lo - 1))
    && (hi == HEAP_SIZE || LiveAt(L, hi))
  }

  lemma LiveAtBlock(L: Layout, k: nat, a: nat)
    requires Tiles(L, 0, HEAP_SIZE) && k < |L| && L[k].start <= a < L[k].End()
    ensures LiveAt(L, a) <==> !L[k].free
  {
    Ascending(L, 0, HEAP_SIZE);
    if LiveAt(L, a) {
      var i :| 0 <= i < |L| && !L[i].free && L[i].start <= a < L[i].End();
      assert i == k;
    }
  }

  lemma FreeBlockIsGap(L: Layout, k: nat)
    requires WellFormed(L) && k < |L| && L[k].free
    ensures MaximalGap(L, L[k].start, L[k].End())
  {
    Ascending(L, 0, HEAP_SIZE);
    forall a | L[k].start <= a < L[k].End() ensures !LiveAt(L, a) {
      LiveAtBlock(L, k, a);
    }
    if k > 0 {
      LiveAtBlock(L, k - 1, L[k].start - 1);
    }
    if k + 1 < |L| {
      LiveAtBlock(L, k + 1, L[k].End());
    }
  }

  lemma GapIsFreeBlock(L: Layout, lo: nat, hi: nat) returns (k: nat)
    requires WellFormed(L) && MaximalGap(L, lo, hi)
    ensures k < |L| && L[k] == Block(lo, hi - lo, true)
  {
    Ascending(L, 0, HEAP_SIZE);
    k := BlockOf(L, 0, HEAP_SIZE, lo);
    LiveAtBlock(L, k, lo);
    if L[k].start < lo {
      LiveAtBlock(L, k, lo - 1);
    }
    if hi < L[k].End() {
      LiveAtBlock(L, k, hi);
    }
    if L[k].End() < hi {
      assert k + 1 < |L|;
      LiveAtBlock(L, k + 1, L[k].End());
    }
  }

  /** Some maximal gap starts at lo and can hold `need` bytes. */
  ghost predicate GapFits(L: Layout, need: nat, lo: nat) {
    exists hi: nat :: MaximalGap(L, lo, hi) && hi - lo >= need
  }

  /** No maximal gap can hold `need` bytes. */
  ghost predicate NoGap(L: Layout, need: nat) { forall lo: nat :: !GapFits(L, need, lo) }

  /**
   First fit over the block list is lowest fit over the gaps between live blocks:
   no fit exactly when no maximal gap is large enough, and otherwise the chosen
   block is the lowest maximal gap that is.
   */
  lemma FirstFitIsLowestGap(L: Layout, need: nat)
    requires WellFormed(L)
    ensures FirstFit(L, need) == |L| <==> NoGap(L, need)
    ensures var k := FirstFit(L, need);
            k < |L| ==> GapFits(L, need, L[k].start) && forall lo: nat :: GapFits(L, need, lo) ==> L[k].start <= lo
  {
    var k := FirstFit(L, need);
    Ascending(L, 0, HEAP_SIZE);
    if k < |L| {
      FreeBlockIsGap(L, k);
      assert GapFits(L, need, L[k].start);
    }
    forall lo: nat | GapFits(L, need, lo) ensures k < |L| && L[k].start <= lo {
      var hi: nat :| MaximalGap(L, lo, hi) && hi - lo >= need;
      var j := GapIsFreeBlock(L, lo, hi);
      assert k <= j;
    }
  }

  // ---------------------------------------------------------------- what alloc and release keep

  /** The blocks around position k of a layout, and what they have in common. */
  lemma Around(L: Layout, k: nat)
    requires Tiles(L, 0, HEAP_SIZE) && k < |L|
    ensures L == L[..k] + [L[k]] + L[k + 1..]
    ensures Tiles(L[..k], 0, L[k].start) && Tiles(L[k + 1..], L[k].End(), HEAP_SIZE)
    ensures LiveSet(L) == LiveSet(L[..k]) + LiveSet([L[k]]) + LiveSet(L[k + 1..])
    ensures L[k] !in LiveSet(L[..k]) && L[k] !in LiveSet(L[k + 1..])
    ensures Coalesced(L) ==>
              && Coalesced(L[..k]) && Coalesced(L[k + 1..])
              && (k > 0 ==> !(L[k - 1].free && L[k].free))
              && (k + 1 < |L| ==> !(L[k].free && L[k + 1].free))
  {
    hide Tiles, Coalesced, LiveSet;
    TilesCut(L, k, 0, HEAP_SIZE);
    LiveOnce(L, k, k, k + 1);
    assert L == L[..k] + [L[k]] + L[k + 1..];
    LiveMiddle(L[..k], [L[k]], L[k + 1..]);
    CoalescedConcat(L[..k] + [L[k]], L[k + 1..]);
    CoalescedConcat(L[..k], [L[k]]);
  }

  /** Replacing the middle of a tiling by another tiling of the same range. */
  lemma Patch(A: Layout, M: Layout, B: Layout, lo: nat, hi: nat)
    requires Tiles(A, 0, lo) && Tiles(M, lo, hi) && Tiles(B, hi, HEAP_SIZE) && M != []
    ensures Tiles(A + M + B, 0, HEAP_SIZE)
    ensures LiveSet(A + M + B) == LiveSet(A) + LiveSet(M) + LiveSet(B)
    ensures && Coalesced(A) && Coalesced(M) && Coalesced(B)
            && (A != [] ==> !(A[|A| - 1].free && M[0].free))
            && (B != [] ==> !(M[|M| - 1].free && B[0].free))
            ==> Coalesced(A + M + B)
  {
    hide Tiles, Coalesced, LiveSet;
    TilesConcat(A, M, 0, lo, hi);
    TilesConcat(A + M, B, 0, hi, HEAP_SIZE);
    LiveConcat(A, M);
    LiveConcat(A + M, B);
    CoalescedConcat(A, M);
    CoalescedConcat(A + M, B);
  }

  /** The blocks that take the place of a free block handed out by kmalloc. */
  function Carve(b: Block, need: nat): Layout {
    if b.size <= need + HEADER + HEAP_ALIGN then [b.(free := false)]
    else [Block(b.start, need, false), Block(b.start + need, b.size - need, true)]
  }

  lemma AllocIsCarve(L: Layout, k: nat, need: nat)
    requires k < |L|
    ensures AllocAt(L, k, need) == L[..k] + Carve(L[k], need) + L[k + 1..]
  {
  }

  lemma CarveTiles(b: Block, need: nat)
    requires b.free && HEADER <= need <= b.size && need % 16 == 0 && b.size % 16 == 0
    ensures var C := Carve(b, need);
            && Tiles(C, b.start, b.End()) && Coalesced(C) && LiveSet(C) == {C[0]}
            && C[0].start == b.start && !C[0].free
            && need <= C[0].size <= need + HEADER + HEAP_ALIGN
            && (C[0].size == need <==> b.size > need + HEADER + HEAP_ALIGN || b.size == need)
            && (C[0].size != need ==> C[0].size == b.size)
            && |C| <= 2 && (|C| == 2 ==> C[1].free)
  {
    var C := Carve(b, need);
    assert C[0] in LiveSet(C);
    assert (b.size - need) % 16 == 0;
  }

  lemma SizesAligned(L: Layout, k: nat)
    requires Tiles(L, 0, HEAP_SIZE) && k < |L|
    ensures L[k].size % 16 == 0
  {
  }

  lemma AllocKeeps(L: Layout, k: nat, need: nat)
    requires WellFormed(L) && k < |L| && L[k].free
    requires HEADER <= need <= L[k].size && need % 16 == 0
    ensures WellFormed(AllocAt(L, k, need))
    ensures var A := AllocAt(L, k, need);
            && k < |A| && !A[k].free && A[k].start == L[k].start
            && need <= A[k].size <= need + HEADER + HEAP_ALIGN
            && (A[k].size == need <==> L[k].size > need + HEADER + HEAP_ALIGN || L[k].size == need)
            && (A[k].size != need ==> A[k].size == L[k].size)
            && LiveSet(A) == LiveSet(L) + {A[k]}
            && A[k] !in LiveSet(L)
  {
    hide Tiles, Coalesced, LiveSet, Carve, AllocAt;
    AllocIsCarve(L, k, need);
    SizesAligned(L, k);
    CarveTiles(L[k], need);
    NoneLive(L[k]);
    NotLiveHere(L, k, Carve(L[k], need)[0]);
    Around(L, k);
    var C := Carve(L[k], need);
    Patch(L[..k], C, L[k + 1..], L[k].start, L[k].End());
    assert AllocAt(L, k, need)[k] == C[0];
  }

  lemma NotLiveHere(L: Layout, k: nat, b: Block)
    requires Tiles(L, 0, HEAP_SIZE) && k < |L| && L[k].free && b.start == L[k].start
    ensures b !in LiveSet(L)
  {
    Ascending(L, 0, HEAP_SIZE);
    forall i | 0 <= i < |L| && !L[i].free ensures L[i] != b {
      assert i < k || k < i;
    }
  }

  predicate FreeBefore(L: Layout, k: nat) { 0 < k <= |L| && L[k - 1].free }
  predicate FreeAfter(L: Layout, k: nat) { k + 1 < |L| && L[k + 1].free }

  /** Releasing block k swallows the free neighbours it has on either side. */
  function Swallow(L: Layout, k: nat): Block
    requires k < |L|
  {
    Block(if FreeBefore(L, k) then L[k - 1].start else L[k].start,
          (if FreeBefore(L, k) then L[k - 1].size else 0) + L[k].size +
          (if FreeAfter(L, k) then L[k + 1].size else 0),
          true)
  }

  lemma ReleaseIsSwallow(L: Layout, k: nat)
    requires k < |L|
    ensures var lo := if FreeBefore(L, k) then k - 1 else k;
            var hi := if FreeAfter(L, k) then k + 1 else k;
            Release(L, k) == L[..lo] + [Swallow(L, k)] + L[hi + 1..]
  {
    var F := L[k := L[k].(free := true)];
    var M := MergeNext(F, k);
    assert M[..k] == L[..k];
    if FreeAfter(L, k) {
      assert M[k + 1..] == L[k + 2..];
    } else {
      assert M[k + 1..] == L[k + 1..];
    }
    assert M == M[..k] + [M[k]] + M[k + 1..];
    if FreeBefore(L, k) {
      assert M[k - 1] == L[k - 1];
      assert M[..k - 1] == L[..k - 1];
    }
  }

  lemma CoalescedSlices(L: Layout, i: nat, j: nat)
    requires Coalesced(L) && i <= |L| && j <= |L|
    ensures Coalesced(L[..i]) && Coalesced(L[j..])
  {
    forall n | 0 < n < |L[j..]| ensures !(L[j..][n - 1].free && L[j..][n].free) {
      assert L[j..][n] == L[j + n] && L[j..][n - 1] == L[j + n - 1];
    }
  }

  /** Blocks lo..hi around the live block k, all others of them free, become one free block. */
  ghost predicate Joins(L: Layout, k: nat, lo: nat, hi: nat, b: Block) {
    && lo <= k <= hi < |L| && !L[k].free
    && (forall i :: lo <= i <= hi && i != k ==> L[i].free)
    && b.start == L[lo].start && b.End() == L[hi].End() && b.free
    && b.size >= HEADER && b.size % 16 == 0
  }

  lemma JoinTiles(L: Layout, k: nat, lo: nat, hi: nat, b: Block)
    requires WellFormed(L) && Joins(L, k, lo, hi, b)
    requires lo > 0 ==> !L[lo - 1].free
    requires hi + 1 < |L| ==> !L[hi + 1].free
    ensures WellFormed(L[..lo] + [b] + L[hi + 1..])
  {
    hide Tiles, Coalesced;
    OneTile(b);
    TilesCut(L, lo, 0, HEAP_SIZE);
    TilesCut(L, hi, 0, HEAP_SIZE);
    CoalescedSlices(L, lo, hi + 1);
    Patch(L[..lo], [b], L[hi + 1..], b.start, b.End());
  }

  lemma NoneLive(b: Block)
    requires b.free
    ensures LiveSet([b]) == {}
  {
  }

  lemma OnlyLive(L: Layout, k: nat)
    requires k < |L| && !L[k].free && forall i :: 0 <= i < |L| && i != k ==> L[i].free
    ensures LiveSet(L) == {L[k]}
  {
    assert L[k] in LiveSet(L);
  }

  lemma LiveOnce(L: Layout, k: nat, i: nat, j: nat)
    requires Tiles(L, 0, HEAP_SIZE) && i <= k < j <= |L|
    ensures L[k] !in LiveSet(L[..i]) && L[k] !in LiveSet(L[j..])
  {
    Ascending(L, 0, HEAP_SIZE);
  }

  lemma JoinLive(L: Layout, k: nat, lo: nat, hi: nat, b: Block)
    requires Tiles(L, 0, HEAP_SIZE) && Joins(L, k, lo, hi, b)
    ensures LiveSet(L[..lo] + [b] + L[hi + 1..]) == LiveSet(L) - {L[k]}
  {
    hide Tiles, LiveSet;
    NoneLive(b);
    var A, B := LiveSet(L[..lo]), LiveSet(L[hi + 1..]);
    assert LiveSet(L) == A + {L[k]} + B by {
      assert L == L[..lo] + L[lo..hi + 1] + L[hi + 1..];
      LiveMiddle(L[..lo], L[lo..hi + 1], L[hi + 1..]);
      OnlyLive(L[lo..hi + 1], k - lo);
    }
    assert LiveSet(L[..lo] + [b] + L[hi + 1..]) == A + B by {
      LiveMiddle(L[..lo], [b], L[hi + 1..]);
    }
    LiveOnce(L, k, lo, hi + 1);
  }

  lemma LiveMiddle(A: Layout, M: Layout, B: Layout)
    ensures LiveSet(A + M + B) == LiveSet(A) + LiveSet(M) + LiveSet(B)
  {
    LiveConcat(A + M, B);
    LiveConcat(A, M);
  }

  lemma SwallowJoins(L: Layout, k: nat, lo: nat, hi: nat)
    requires Tiles(L, 0, HEAP_SIZE) && k < |L| && !L[k].free
    requires lo == if FreeBefore(L, k) then k - 1 else k
    requires hi == if FreeAfter(L, k) then k + 1 else k
    ensures Joins(L, k, lo, hi, Swallow(L, k))
  {
  }

  lemma ReleaseKeeps(L: Layout, k: nat)
    requires WellFormed(L) && k < |L| && !L[k].free
    ensures WellFormed(Release(L, k))
    ensures LiveSet(Release(L, k)) == LiveSet(L) - {L[k]}
  {
    hide Tiles, LiveSet, Release, Swallow, Joins;
    ReleaseIsSwallow(L, k);
    var lo := if FreeBefore(L, k) then k - 1 else k;
    var hi := if FreeAfter(L, k) then k + 1 else k;
    SwallowJoins(L, k, lo, hi);
    JoinTiles(L, k, lo, hi, Swallow(L, k));
    JoinLive(L, k, lo, hi, Swallow(L, k));
  }

  /** Releasing a block that is free already changes nothing: its neighbours are live. */
  lemma ReleaseFree(L: Layout, k: nat)
    requires WellFormed(L) && k < |L| && L[k].free
    ensures Release(L, k) == L
  {
    assert L[k := L[k].(free := true)] == L;
  }

  /** kfree undoes kmalloc: the identical list of blocks comes back. */
  lemma ReleaseUndoesAlloc(L: Layout, k: nat, need: nat)
    requires WellFormed(L) && k < |L| && L[k].free
    requires HEADER <= need <= L[k].size && need % 16 == 0
    ensures var A := AllocAt(L, k, need); k < |A| && Release(A, k) == L
  {
    AllocKeeps(L, k, need);
    var A := AllocAt(L, k, need);
    ReleaseKeeps(A, k);
    Canonical(Release(A, k), L, 0);
  }

  // ---------------------------------------------------------------- canonicity

  /**
   A well-formed layout is determined by its live blocks alone: where the free
   blocks are, and how many there are, is forced.
   */
  lemma {:induction false} Canonical(L: Layout, R: Layout, lo: nat)
    requires Tiles(L, lo, HEAP_SIZE) && Tiles(R, lo, HEAP_SIZE)
    requires Coalesced(L) && Coalesced(R)
    requires LiveSet(L) == LiveSet(R)
    ensures L == R
    decreases |L|
  {
    hide Tiles, Coalesced, LiveSet;
    TilesHead(L, lo, HEAP_SIZE);
    TilesHead(R, lo, HEAP_SIZE);
    if L == [] || R == [] {
      BothEmpty(L, R, lo);
    } else {
      SameHead(L, R, lo);
      TailLive(L, lo);
      TailLive(R, lo);
      CoalescedSlices(L, 0, 1);
      CoalescedSlices(R, 0, 1);
      assert L == [L[0]] + L[1..] && R == [R[0]] + R[1..];
      Canonical(L[1..], R[1..], L[0].End());
    }
  }

  lemma BothEmpty(L: Layout, R: Layout, lo: nat)
    requires Tiles(L, lo, HEAP_SIZE) && Tiles(R, lo, HEAP_SIZE) && (L == [] || R == [])
    ensures L == R
  {
    hide Tiles;
    TilesHead(L, lo, HEAP_SIZE);
    TilesHead(R, lo, HEAP_SIZE);
    if L != [] { Ascending(L[1..], L[0].End(), HEAP_SIZE); }
    if R != [] { Ascending(R[1..], R[0].End(), HEAP_SIZE); }
  }

  lemma TailLive(L: Layout, lo: nat)
    requires Tiles(L, lo, HEAP_SIZE) && L != []
    ensures LiveSet(L[1..]) == LiveSet(L) - (if L[0].free then {} else {L[0]})
  {
    Ascending(L, lo, HEAP_SIZE);
    var T := L[1..];
    forall b | b in LiveSet(L) && b != L[0] ensures b in LiveSet(T) {
      var i :| 0 <= i < |L| && !L[i].free && L[i] == b;
      assert T[i - 1] == b;
    }
    forall b | b in LiveSet(T) ensures b in LiveSet(L) && b != L[0] {
      var i :| 0 <= i < |T| && !T[i].free && T[i] == b;
      assert L[i + 1] == b;
    }
  }

  /** In a tiled layout a block that starts where another one does is that block. */
  lemma HeadIfLive(L: Layout, R: Layout, lo: nat)
    requires Tiles(L, lo, HEAP_SIZE) && Tiles(R, lo, HEAP_SIZE) && L != [] && R != []
    requires LiveSet(L) <= LiveSet(R) && !L[0].free
    ensures R[0] == L[0]
  {
    Ascending(R, lo, HEAP_SIZE);
    assert L[0] in LiveSet(L);
    var i :| 0 <= i < |R| && !R[i].free && R[i] == L[0];
    assert i == 0;
  }

  /** The second block of a coalesced layout that starts free is live. */
  lemma FreeHeadReach(L: Layout, R: Layout, lo: nat)
    requires Tiles(L, lo, HEAP_SIZE) && Tiles(R, lo, HEAP_SIZE) && L != [] && R != []
    requires Coalesced(L) && LiveSet(L) == LiveSet(R) && L[0].free && R[0].free
    ensures R[0].End() <= L[0].End()
  {
    Ascending(L, lo, HEAP_SIZE);
    Ascending(R, lo, HEAP_SIZE);
    if |L| > 1 {
      assert L[1] in LiveSet(L);
      var i :| 0 <= i < |R| && !R[i].free && R[i] == L[1];
      assert i > 0;
    }
  }

  lemma SameHead(L: Layout, R: Layout, lo: nat)
    requires Tiles(L, lo, HEAP_SIZE) && Tiles(R, lo, HEAP_SIZE) && L != [] && R != []
    requires Coalesced(L) && Coalesced(R) && LiveSet(L) == LiveSet(R)
    ensures L[0] == R[0]
  {
    if !L[0].free {
      HeadIfLive(L, R, lo);
    } else if !R[0].free {
      HeadIfLive(R, L, lo);
    } else {
      FreeHeadReach(L, R, lo);
      FreeHeadReach(R, L, lo);
    }
  }
}
