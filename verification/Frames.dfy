/**
 The physical frame allocator: a bitmap packed into 32-bit words that stands for
 the set of frames in use.
 */
module Frames {
  import opened Words
  import opened Bits

  const MAX_PHYS_MEM: nat := 536870912
  const MAX_FRAMES: nat := 131072
  const BITMAP_WORDS: nat := 4096

  /** Page f of physical memory shares a byte with [start, start + size). */
  predicate Overlaps(f: nat, start: nat, size: nat) {
    size > 0 && start < (f + 1) * PAGE_SIZE && f * PAGE_SIZE < start + size
  }

  /**
   The frames reserve_range and free_range visit, with the 32-bit sum they compute:
   from the page of `start` up to the rounded end, clipped to the memory size.
   */
  ghost function Visited(start: nat, size: nat, totalBytes: nat): set<nat> {
    var end := AlignUp32((start + size) % WORD_LIMIT, PAGE_SIZE);
    var stop := if end > totalBytes then totalBytes else end;
    if size == 0 then {} else FramesIn(start - start % PAGE_SIZE, stop)
  }

  ghost function FramesIn(lo: nat, hi: nat): set<nat> {
    set f | 0 <= f < MAX_FRAMES && lo <= f * PAGE_SIZE < hi
  }

  lemma VisitedIsFramesIn(startPhys: nat, size: nat, totalBytes: nat, start: nat, end: nat)
    requires size != 0 && totalBytes % PAGE_SIZE == 0 && totalBytes <= MAX_PHYS_MEM
    requires start == startPhys - startPhys % PAGE_SIZE
    requires end == var e := AlignUp32((startPhys + size) % WORD_LIMIT, PAGE_SIZE);
                    if e > totalBytes then totalBytes else e
    ensures Visited(startPhys, size, totalBytes) == FramesIn(start, end)
    ensures start % PAGE_SIZE == 0 && end % PAGE_SIZE == 0 && end <= MAX_PHYS_MEM
  {
    RoundDown(((startPhys + size) % WORD_LIMIT + PAGE_SIZE - 1) % WORD_LIMIT);
    RoundDown(startPhys);
  }

  lemma NothingVisited(startPhys: nat, totalBytes: nat)
    ensures Visited(startPhys, 0, totalBytes) == {}
  {
  }

  lemma EmptyRange(start: nat, end: nat)
    ensures FramesIn(start, start) == {}
    ensures start >= end ==> FramesIn(start, end) == {}
  {
  }

  lemma FramesInStep(lo: nat, addr: nat)
    requires addr % PAGE_SIZE == 0 && lo <= addr < MAX_PHYS_MEM
    ensures FramesIn(lo, addr + PAGE_SIZE) == FramesIn(lo, addr) + {addr / PAGE_SIZE}
  {
    var f0 := addr / PAGE_SIZE;
    assert f0 * PAGE_SIZE == addr;
    forall f | f in FramesIn(lo, addr + PAGE_SIZE) && f != f0 ensures f in FramesIn(lo, addr) {
      assert f * PAGE_SIZE < (f0 + 1) * PAGE_SIZE;
    }
  }

  /** Without wrap-around the loops visit exactly the overlapped frames below the memory size. */
  lemma VisitedIsOverlap(start: nat, size: nat, totalBytes: nat)
    requires totalBytes % PAGE_SIZE == 0 && totalBytes <= MAX_PHYS_MEM
    requires start + size + PAGE_SIZE <= WORD_LIMIT
    ensures forall f :: f in Visited(start, size, totalBytes) <==>
                        0 <= f < totalBytes / PAGE_SIZE && Overlaps(f, start, size)
  {
    var sum := start + size + PAGE_SIZE - 1;
    assert AlignUp32((start + size) % WORD_LIMIT, PAGE_SIZE) == sum - sum % PAGE_SIZE;
  }

  /** The lowest frame below `total` that is not in use, or `total`. */
  ghost function LowestFree(used: set<nat>, total: nat): (f: nat)
    ensures f <= total
    ensures f < total ==> f !in used
    ensures forall g :: 0 <= g < f ==> g in used
  {
    LowestFrom(used, total, 0)
  }

  ghost function LowestFrom(used: set<nat>, total: nat, from: nat): (f: nat)
    requires from <= total && forall g :: 0 <= g < from ==> g in used
    ensures from <= f <= total
    ensures f < total ==> f !in used
    ensures forall g :: 0 <= g < f ==> g in used
    decreases total - from
  {
    if from == total || from !in used then from else LowestFrom(used, total, from + 1)
  }

  class FrameBitmap {
    const words: array<nat>
    var totalBytes: nat
    var totalFrames: nat

    ghost predicate Valid()
      reads this, words
    {
      && words.Length == BITMAP_WORDS
      && (forall i :: 0 <= i < BITMAP_WORDS ==> words[i] < WORD_LIMIT)
      && totalFrames <= MAX_FRAMES && totalBytes == totalFrames * PAGE_SIZE
    }

    predicate InUse(f: nat)
      requires words.Length == BITMAP_WORDS && f < MAX_FRAMES
      reads words
    {
      Bit(words[f / 32], f % 32)
    }

    /** The abstract value: the frames whose bit is set. */
    ghost function Used(): set<nat>
      requires words.Length == BITMAP_WORDS
      reads words
    {
      set f | 0 <= f < MAX_FRAMES && InUse(f)
    }

    constructor ()
      ensures Valid() && totalFrames == 0 && fresh(words)
    {
      words := new nat[BITMAP_WORDS](_ => 0);
      totalBytes, totalFrames := 0, 0;
    }

    method SetFrame(frame: nat)
      requires Valid() && frame < MAX_FRAMES
      modifies words
      ensures Valid() && Used() == old(Used()) + {frame}
    {
      var w := words[frame / 32];
      words[frame / 32] := BitOr(w, Pow2(frame % 32));
      SetWord(w, frame % 32);
      forall f | 0 <= f < MAX_FRAMES ensures InUse(f) <==> old(InUse(f)) || f == frame {
        if f / 32 == frame / 32 {
          BitOfOr(w, Pow2(frame % 32), f % 32);
          BitOfPow2(frame % 32, f % 32);
        }
      }
    }

    method ClearFrame(frame: nat)
      requires Valid() && frame < MAX_FRAMES
      modifies words
      ensures Valid() && Used() == old(Used()) - {frame}
    {
      var w := words[frame / 32];
      SetWord(0, frame % 32);
      words[frame / 32] := BitAnd(w, WORD_LIMIT - 1 - Pow2(frame % 32));
      forall f | 0 <= f < MAX_FRAMES ensures InUse(f) <==> old(InUse(f)) && f != frame {
        if f / 32 == frame / 32 {
          BitOfAnd(w, WORD_LIMIT - 1 - Pow2(frame % 32), f % 32);
          BitOfNot(Pow2(frame % 32), 32, f % 32);
          BitOfPow2(frame % 32, f % 32);
        }
      }
    }

    /** reserve_range: the frames of the range become used. */
    method ReserveRange(startPhys: nat, size: nat)
      requires Valid() && startPhys < WORD_LIMIT && size < WORD_LIMIT
      modifies words
      ensures Valid() && Used() == old(Used()) + Visited(startPhys, size, totalBytes)
    {
      hide Used, FramesIn, Visited;
      if size == 0 {
        NothingVisited(startPhys, totalBytes);
        return;
      }
      var start := startPhys - startPhys % PAGE_SIZE;
      var end := AlignUp32((startPhys + size) % WORD_LIMIT, PAGE_SIZE);
      if end > totalBytes {
        end := totalBytes;
      }
      VisitedIsFramesIn(startPhys, size, totalBytes, start, end);
      ReservePages(start, end);
    }

    method ReservePages(start: nat, end: nat)
      requires Valid() && start % PAGE_SIZE == 0 && end % PAGE_SIZE == 0 && end <= totalBytes
      modifies words
      ensures Valid() && Used() == old(Used()) + FramesIn(start, end)
    {
      hide Used, FramesIn;
      EmptyRange(start, end);
      var addr := start;
      while addr < end
        invariant Valid() && addr % PAGE_SIZE == 0 && start <= addr && (addr == start || addr <= end)
        invariant Used() == old(Used()) + FramesIn(start, addr)
      {
        NextPage(addr, end);
        var frame := addr / PAGE_SIZE;
        if frame < totalFrames {
          SetFrame(frame);
        }
        FramesInStep(start, addr);
        addr := addr + PAGE_SIZE;
      }
    }

    /** free_range: the frames of the range become free. */
    method FreeRange(startPhys: nat, size: nat)
      requires Valid() && startPhys < WORD_LIMIT && size < WORD_LIMIT
      modifies words
      ensures Valid() && Used() == old(Used()) - Visited(startPhys, size, totalBytes)
    {
      hide Used, FramesIn, Visited;
      if size == 0 {
        NothingVisited(startPhys, totalBytes);
        return;
      }
      var start := startPhys - startPhys % PAGE_SIZE;
      var end := AlignUp32((startPhys + size) % WORD_LIMIT, PAGE_SIZE);
      if end > totalBytes {
        end := totalBytes;
      }
      VisitedIsFramesIn(startPhys, size, totalBytes, start, end);
      FreePages(start, end);
    }

    method FreePages(start: nat, end: nat)
      requires Valid() && start % PAGE_SIZE == 0 && end % PAGE_SIZE == 0 && end <= totalBytes
      modifies words
      ensures Valid() && Used() == old(Used()) - FramesIn(start, end)
    {
      hide Used, FramesIn;
      EmptyRange(start, end);
      var addr := start;
      while addr < end
        invariant Valid() && addr % PAGE_SIZE == 0 && start <= addr && (addr == start || addr <= end)
        invariant Used() == old(Used()) - FramesIn(start, addr)
      {
        NextPage(addr, end);
        var frame := addr / PAGE_SIZE;
        if frame < totalFrames {
          ClearFrame(frame);
        }
        FramesInStep(start, addr);
        addr := addr + PAGE_SIZE;
      }
    }

    /** The address of the lowest free frame, which becomes used; 0 when all are in use. */
    method AllocFrame() returns (phys: nat)
      requires Valid()
      modifies words
      ensures Valid()
      ensures var f := LowestFree(old(Used()), totalFrames);
              if f < totalFrames then phys == f * PAGE_SIZE && Used() == old(Used()) + {f}
              else phys == 0 && Used() == old(Used())
    {
      var frame := 0;
      while frame < totalFrames
        invariant 0 <= frame <= totalFrames
        invariant forall f :: 0 <= f < frame ==> f in Used()
        invariant words[..] == old(words[..])
      {
        assert Used() == old(Used());
        var used := TestFrame(frame);
        if !used {
          assert LowestFree(Used(), totalFrames) == frame;
          SetFrame(frame);
          return frame * PAGE_SIZE;
        }
        frame := frame + 1;
      }
      assert Used() == old(Used());
      return 0;
    }

    method FreeFrame(phys: nat)
      requires Valid() && phys < WORD_LIMIT
      modifies words
      ensures Valid()
      ensures Used() == if phys / PAGE_SIZE < totalFrames then old(Used()) - {phys / PAGE_SIZE} else old(Used())
    {
      var frame := phys / PAGE_SIZE;
      if frame < totalFrames {
        ClearFrame(frame);
      }
    }

    method TestFrame(frame: nat) returns (used: bool)
      requires Valid() && frame < MAX_FRAMES
      ensures used <==> frame in Used()
    {
      used := Shr(words[frame / 32], frame % 32) % 2 == 1;
    }
  }

  lemma Pow2Of32()
    ensures Pow2(32) == WORD_LIMIT
  {
    assert Pow2(8) == 256;
    assert Pow2(16) == 65536;
    assert Pow2(24) == 16777216;
  }

  lemma {:induction false} Pow2Mono(i: nat, j: nat)
    requires i < j
    ensures Pow2(i) < Pow2(j)
    decreases j
  {
    if i < j - 1 { Pow2Mono(i, j - 1); }
  }

  lemma SetWord(w: nat, i: nat)
    requires w < WORD_LIMIT && i < 32
    ensures BitOr(w, Pow2(i)) < WORD_LIMIT && Pow2(i) < WORD_LIMIT == Pow2(32)
  {
    Pow2Of32();
    Pow2Mono(i, 32);
    OrBound(w, Pow2(i), 32);
  }
}
