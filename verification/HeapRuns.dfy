/**
 Whole runs of kmalloc, kfree and krealloc over heap layouts.
 */
module HeapRuns {
  import opened Words
  import opened HeapLayout

  /** Calls on the heap; a block is named by the offset of its header. */
  datatype Op = Malloc(size: nat) | Free(at: nat) | Realloc(at: nat, size: nat)

  /** The block that starts at offset `at`, or |L|. */
  function IndexOf(L: Layout, at: nat): (k: nat)
    ensures k <= |L|
    ensures k < |L| ==> L[k].start == at
    ensures k == |L| ==> forall i :: 0 <= i < |L| ==> L[i].start != at
  {
    if L == [] || L[0].start == at then 0 else 1 + IndexOf(L[1..], at)
  }

  predicate IsLive(L: Layout, at: nat) {
    var k := IndexOf(L, at);
    k < |L| && !L[k].free
  }

  /** kmalloc(size) would split a block at less than a header. */
  predicate Corrupts(L: Layout, size: nat) {
    var k := FirstFit(L, Need(size));
    Clobbers(size) && k < |L| && L[k].size > Need(size) + HEADER + HEAP_ALIGN
  }

  /** kmalloc(size) would hand out a block smaller than the request. */
  predicate Undersized(L: Layout, size: nat) {
    size > 0xFFFF_FFD0 && FirstFit(L, Need(size)) < |L|
  }

  /**
   Callers name live blocks, no kmalloc splits a block at less than a header, and no
   krealloc copies into a block that is smaller than its request.
   */
  predicate Allowed(L: Layout, op: Op) {
    match op
    case Malloc(size) => size < WORD_LIMIT && !Corrupts(L, size)
    case Free(at) => IsLive(L, at)
    case Realloc(at, size) => IsLive(L, at) && size < WORD_LIMIT && !Undersized(L, size)
  }

  function ReleaseAtStart(L: Layout, at: nat): Layout {
    var k := IndexOf(L, at);
    if k < |L| then Release(L, k) else L
  }

  /** krealloc: free, keep in place, or move; a failed move leaves the layout alone. */
  function ReallocLayout(L: Layout, at: nat, size: nat): Layout {
    var k := IndexOf(L, at);
    if k == |L| then L
    else if size == 0 then Release(L, k)
    else if size + HEADER <= L[k].size then L
    else if FirstFit(L, Need(size)) == |L| then L
    else ReleaseAtStart(Alloc(L, Need(size)), at)
  }

  function Step(L: Layout, op: Op): Layout {
    match op
    case Malloc(size) => if size == 0 then L else Alloc(L, Need(size))
    case Free(at) => ReleaseAtStart(L, at)
    case Realloc(at, size) => ReallocLayout(L, at, size)
  }

  function Run(L: Layout, ops: seq<Op>): Layout
    decreases |ops|
  {
    if ops == [] then L else Run(Step(L, ops[0]), ops[1..])
  }

  predicate RunAllowed(L: Layout, ops: seq<Op>)
    decreases |ops|
  {
    ops == [] || (Allowed(L, ops[0]) && RunAllowed(Step(L, ops[0]), ops[1..]))
  }

  // ---------------------------------------------------------------- single steps

  lemma LiveIndex(L: Layout, b: Block)
    requires Tiles(L, 0, HEAP_SIZE) && b in LiveSet(L)
    ensures IndexOf(L, b.start) < |L| && L[IndexOf(L, b.start)] == b
  {
    Ascending(L, 0, HEAP_SIZE);
    var i :| 0 <= i < |L| && !L[i].free && L[i] == b;
    var k := IndexOf(L, b.start);
    assert k == i;
  }

  /** A block too small to be split is handed out whole, whatever the total asked for. */
  lemma WholeBlock(L: Layout, k: nat, need: nat)
    requires k < |L| && L[k].size <= need + HEADER + HEAP_ALIGN
    ensures AllocAt(L, k, need) == AllocAt(L, k, L[k].size)
  {
  }

  /** The block list after a request that fits and does not corrupt. */
  lemma FitKeeps(L: Layout, size: nat)
    requires WellFormed(L) && 0 < size < WORD_LIMIT && !Corrupts(L, size)
    requires FirstFit(L, Need(size)) < |L|
    ensures var k := FirstFit(L, Need(size));
            var A := Alloc(L, Need(size));
            && WellFormed(A) && k < |A| && !A[k].free && A[k].start == L[k].start
            && Need(size) <= A[k].size <= Need(size) + HEADER + HEAP_ALIGN
            && LiveSet(A) == LiveSet(L) + {A[k]} && A[k] !in LiveSet(L)
  {
    hide Coalesced, LiveSet;
    NeedIsExactIff(size);
    var k := FirstFit(L, Need(size));
    if Need(size) >= HEADER {
      AllocKeeps(L, k, Need(size));
    } else {
      WholeBlock(L, k, Need(size));
      AllocKeeps(L, k, L[k].size);
      AllocIsCarve(L, k, L[k].size);
    }
  }

  lemma MallocStep(L: Layout, size: nat)
    requires WellFormed(L) && 0 < size < WORD_LIMIT && !Corrupts(L, size)
    ensures WellFormed(Alloc(L, Need(size)))
    ensures LiveSet(L) <= LiveSet(Alloc(L, Need(size)))
  {
    hide WellFormed, LiveSet, AllocAt;
    if FirstFit(L, Need(size)) < |L| {
      FitKeeps(L, size);
    }
  }

  /** The block kmalloc hands out holds the request exactly for the sizes that do not wrap. */
  lemma HoldsRequestIff(L: Layout, size: nat)
    requires WellFormed(L) && 0 < size < WORD_LIMIT && !Corrupts(L, size)
    requires FirstFit(L, Need(size)) < |L|
    ensures var A := Alloc(L, Need(size));
            var k := FirstFit(L, Need(size));
            k < |A| && (A[k].size >= size + HEADER <==> !Undersized(L, size))
  {
    hide Coalesced, LiveSet;
    FitKeeps(L, size);
    NeedIsExactIff(size);
    Ascending(Alloc(L, Need(size)), 0, HEAP_SIZE);
  }

  /** A successful kmalloc(size) that turns L into A and hands out the block at offset `at`. */
  ghost predicate Allocates(L: Layout, A: Layout, size: nat, at: nat) {
    && A == Alloc(L, Need(size)) && WellFormed(A) && at % 16 == 0
    && GapFits(L, Need(size), at)
    && (forall lo: nat :: GapFits(L, Need(size), lo) ==> at <= lo)
    && !IsLive(L, at) && IsLive(A, at)
    && var b := A[IndexOf(A, at)];
       && Need(size) <= b.size <= Need(size) + 48
       && b !in LiveSet(L) && LiveSet(A) == LiveSet(L) + {b}
  }

  lemma FitIsMarked(L: Layout, size: nat)
    requires WellFormed(L) && 0 < size < WORD_LIMIT && !Corrupts(L, size)
    requires FirstFit(L, Need(size)) < |L|
    ensures var at := L[FirstFit(L, Need(size))].start;
            && at % 16 == 0 && !IsLive(L, at) && IsLive(Alloc(L, Need(size)), at)
            && IndexOf(Alloc(L, Need(size)), at) == FirstFit(L, Need(size))
  {
    hide Coalesced, Need, LiveSet, Alloc;
    var k := FirstFit(L, Need(size));
    FitKeeps(L, size);
    StartIndex(L, k);
    StartIndex(Alloc(L, Need(size)), k);
  }

  lemma StartIndex(L: Layout, k: nat)
    requires Tiles(L, 0, HEAP_SIZE) && k < |L|
    ensures IndexOf(L, L[k].start) == k && L[k].start % 16 == 0
  {
    Ascending(L, 0, HEAP_SIZE);
  }

  lemma FitAllocates(L: Layout, size: nat)
    requires WellFormed(L) && 0 < size < WORD_LIMIT && !Corrupts(L, size)
    requires FirstFit(L, Need(size)) < |L|
    ensures Allocates(L, Alloc(L, Need(size)), size, L[FirstFit(L, Need(size))].start)
  {
    hide WellFormed, GapFits, IsLive, Corrupts, Need, LiveSet, Alloc;
    FitKeeps(L, size);
    FitIsMarked(L, size);
    FirstFitIsLowestGap(L, Need(size));
  }

  lemma FreeStep(L: Layout, at: nat)
    requires WellFormed(L) && IsLive(L, at)
    ensures WellFormed(ReleaseAtStart(L, at))
    ensures LiveSet(ReleaseAtStart(L, at)) == LiveSet(L) - {L[IndexOf(L, at)]}
  {
    ReleaseKeeps(L, IndexOf(L, at));
  }

  /** A moving krealloc: the old block outlives the allocation and is then released. */
  lemma MoveStep(L: Layout, at: nat, size: nat)
    requires WellFormed(L) && IsLive(L, at) && 0 < size < WORD_LIMIT && !Corrupts(L, size)
    ensures IsLive(Alloc(L, Need(size)), at)
    ensures WellFormed(ReleaseAtStart(Alloc(L, Need(size)), at))
  {
    MallocStep(L, size);
    var b := L[IndexOf(L, at)];
    assert b in LiveSet(L);
    LiveIndex(Alloc(L, Need(size)), b);
    FreeStep(Alloc(L, Need(size)), at);
  }

  lemma StepKeeps(L: Layout, op: Op)
    requires WellFormed(L) && Allowed(L, op)
    ensures WellFormed(Step(L, op))
  {
    match op
    case Malloc(size) =>
      if size > 0 { MallocStep(L, size); }
    case Free(at) =>
      FreeStep(L, at);
    case Realloc(at, size) =>
      if size == 0 {
        FreeStep(L, at);
      } else {
        MoveStep(L, at, size);
      }
  }

  /** Freeing the block an allocation handed out restores the layout before it. */
  lemma FreeUndoesMalloc(L: Layout, A: Layout, size: nat, at: nat)
    requires WellFormed(L) && Allocates(L, A, size, at)
    ensures ReleaseAtStart(A, at) == L
  {
    hide GapFits, Release, Alloc;
    FreeStep(A, at);
    Canonical(ReleaseAtStart(A, at), L, 0);
  }

  // ---------------------------------------------------------------- runs

  /**
   After any run on live pointers the blocks tile the heap exactly and no two
   neighbours are free.
   */
  lemma {:induction false} RunKeepsTiling(L: Layout, ops: seq<Op>)
    requires WellFormed(L) && RunAllowed(L, ops)
    ensures WellFormed(Run(L, ops))
    decreases |ops|
  {
    if ops != [] {
      StepKeeps(L, ops[0]);
      RunKeepsTiling(Step(L, ops[0]), ops[1..]);
    }
  }

  /**
   A run that ends with the live blocks it started with ends with the layout it
   started with, however its calls were interleaved.
   */
  lemma BalancedRunRestores(L: Layout, ops: seq<Op>)
    requires WellFormed(L) && RunAllowed(L, ops)
    requires LiveSet(Run(L, ops)) == LiveSet(L)
    ensures Run(L, ops) == L
  {
    RunKeepsTiling(L, ops);
    Canonical(Run(L, ops), L, 0);
  }

  function Frees(order: seq<Block>): seq<Op> {
    seq(|order|, i requires 0 <= i < |order| => Free(order[i].start))
  }

  /** `order` lists the live blocks, each once. */
  ghost predicate Lists(L: Layout, order: seq<Block>) {
    && (set i | 0 <= i < |order| :: order[i]) == LiveSet(L)
    && (forall i, j :: 0 <= i < j < |order| ==> order[i] != order[j])
  }

  /** With nothing live the layout is the fresh one. */
  lemma NoneLeft(L: Layout)
    requires WellFormed(L) && Lists(L, [])
    ensures L == FRESH
  {
    hide Tiles, Coalesced;
    FreshIsWellFormed();
    Canonical(L, FRESH, 0);
  }

  lemma FreshIsWellFormed()
    ensures WellFormed(FRESH) && LiveSet(FRESH) == {}
  {
  }

  /** Freeing the first block of the list leaves a layout with the rest of the list. */
  lemma FreeFirst(L: Layout, order: seq<Block>)
    requires WellFormed(L) && Lists(L, order) && order != []
    ensures IsLive(L, order[0].start)
    ensures var R := ReleaseAtStart(L, order[0].start); WellFormed(R) && Lists(R, order[1..])
  {
    hide Release, Tiles, Coalesced, ReleaseAtStart;
    var b := order[0];
    assert b in LiveSet(L);
    LiveIndex(L, b);
    assert !b.free;
    FreeStep(L, b.start);
    ListsTail(L, order);
  }

  lemma RunFrees(L: Layout, order: seq<Block>)
    requires order != []
    ensures Run(L, Frees(order)) == Run(ReleaseAtStart(L, order[0].start), Frees(order[1..]))
    ensures IsLive(L, order[0].start) && RunAllowed(ReleaseAtStart(L, order[0].start), Frees(order[1..])) ==>
              RunAllowed(L, Frees(order))
  {
    hide ReleaseAtStart, IsLive;
    assert Frees(order)[1..] == Frees(order[1..]) && Frees(order)[0] == Free(order[0].start);
  }

  lemma NoFrees(L: Layout)
    ensures RunAllowed(L, Frees([])) && Run(L, Frees([])) == L
  {
  }

  /** Freeing all live blocks, in any order, leaves one free block of HEAP_SIZE. */
  lemma {:induction false} FreeAllInAnyOrder(L: Layout, order: seq<Block>)
    requires WellFormed(L) && Lists(L, order)
    ensures RunAllowed(L, Frees(order)) && Run(L, Frees(order)) == FRESH
    decreases |order|
  {
    hide WellFormed, Lists, IsLive, ReleaseAtStart, Run, RunAllowed, Frees;
    if order == [] {
      NoneLeft(L);
      NoFrees(L);
    } else {
      FreeFirst(L, order);
      FreeAllInAnyOrder(ReleaseAtStart(L, order[0].start), order[1..]);
      RunFrees(L, order);
    }
  }

  lemma ListsTail(L: Layout, order: seq<Block>)
    requires Lists(L, order) && order != []
    ensures (set i | 0 <= i < |order[1..]| :: order[1..][i]) == LiveSet(L) - {order[0]}
    ensures forall i, j :: 0 <= i < j < |order[1..]| ==> order[1..][i] != order[1..][j]
  {
    var rest := order[1..];
    forall b | b in LiveSet(L) && b != order[0]
      ensures b in (set i | 0 <= i < |rest| :: rest[i])
    {
      var i :| 0 <= i < |order| && order[i] == b;
      assert rest[i - 1] == b;
    }
    forall i | 0 <= i < |rest| ensures rest[i] in LiveSet(L) - {order[0]} {
      assert rest[i] == order[i + 1];
      assert order[i + 1] in (set n | 0 <= n < |order| :: order[n]);
    }
  }
}
