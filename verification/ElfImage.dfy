/**
 ELF32 images as the loader reads them: header checks, program headers, and the
 memory a list of segments describes ("Program Header", chapter 5 of the System V gABI).
 */
module ElfImage {
  import opened Words
  import opened Bytes
  import opened KernelPaging
  import opened MemoryInit

  const EHDR_SIZE: nat := 52
  const PHDR_SIZE: nat := 32
  const ELF32_MAGIC: nat := 0x464C_457F
  const PT_LOAD: nat := 1
  const USER_END: nat := USER_PROGRAM_BASE + USER_PROGRAM_MAX_SIZE

  datatype Segment = Segment(kind: nat, offset: nat, vaddr: nat, filesz: nat, memsz: nat)

  predicate FitsWords32(s: Segment) {
    s.offset < WORD_LIMIT && s.vaddr < WORD_LIMIT && s.filesz < WORD_LIMIT && s.memsz < WORD_LIMIT
  }

  function SegmentAt(f: seq<byte>, o: nat): (s: Segment)
    requires o + PHDR_SIZE <= |f|
    ensures FitsWords32(s)
  {
    Segment(WordAt(f, o), WordAt(f, o + 4), WordAt(f, o + 8), WordAt(f, o + 16), WordAt(f, o + 20))
  }

  // ---------------------------------------------------------------- checks

  /** validate_segment, with the wrapping end address it computes. */
  predicate ValidateSegment(vaddr: nat, memsz: nat) {
    memsz == 0 ||
    var end := (vaddr + memsz) % WORD_LIMIT;
    vaddr >= USER_PROGRAM_BASE && end >= vaddr && end <= USER_END
  }

  /** The four tests of the segment loop, in program order, each with wrapping sums. */
  predicate Accepts(s: Segment, size: nat) {
    && (s.offset + s.filesz) % WORD_LIMIT >= s.offset
    && (s.offset + s.filesz) % WORD_LIMIT <= size
    && s.memsz >= s.filesz
    && ValidateSegment(s.vaddr, s.memsz)
  }

  /** The wrapping tests accept exactly the segments inside the file and inside the user area. */
  lemma AcceptsIsExact(s: Segment, size: nat)
    requires FitsWords32(s) && size < WORD_LIMIT
    ensures Accepts(s, size) <==>
            && s.offset + s.filesz <= size
            && s.filesz <= s.memsz
            && (s.memsz > 0 ==> USER_PROGRAM_BASE <= s.vaddr && s.vaddr + s.memsz <= USER_END)
  {
    assert s.offset + s.filesz >= WORD_LIMIT ==> (s.offset + s.filesz) % WORD_LIMIT == s.offset + s.filesz - WORD_LIMIT;
    assert s.vaddr + s.memsz >= WORD_LIMIT ==> (s.vaddr + s.memsz) % WORD_LIMIT == s.vaddr + s.memsz - WORD_LIMIT;
  }

  function PhOff(f: seq<byte>): nat requires |f| >= EHDR_SIZE { WordAt(f, 28) }
  function PhNum(f: seq<byte>): nat requires |f| >= EHDR_SIZE { HalfAt(f, 44) }
  function EntryPoint(f: seq<byte>): nat requires |f| >= EHDR_SIZE { WordAt(f, 24) }

  /** Every header test passes; the last one bounds the program header table. */
  predicate HeaderOk(f: seq<byte>) {
    && |f| >= EHDR_SIZE
    && WordAt(f, 0) == ELF32_MAGIC
    && f[4] == 1 && f[5] == 1 && f[6] == 1
    && HalfAt(f, 18) == 3 && WordAt(f, 20) == 1
    && HalfAt(f, 40) == EHDR_SIZE
    && HalfAt(f, 42) == PHDR_SIZE
    && TableFits(PhOff(f), PhNum(f), |f|)
  }

  predicate TableFits(phoff: nat, phnum: nat, size: nat) {
    var end := (phoff + phnum * PHDR_SIZE) % WORD_LIMIT;
    end >= phoff && end <= size
  }

  lemma TableFitsIsExact(phoff: nat, phnum: nat, size: nat)
    requires phoff < WORD_LIMIT && phnum < 65536 && size < WORD_LIMIT
    ensures TableFits(phoff, phnum, size) <==> phoff + phnum * PHDR_SIZE <= size
  {
    assert phoff + phnum * PHDR_SIZE >= WORD_LIMIT ==>
             (phoff + phnum * PHDR_SIZE) % WORD_LIMIT == phoff + phnum * PHDR_SIZE - WORD_LIMIT;
  }

  predicate Parsable(f: seq<byte>) {
    |f| >= EHDR_SIZE && PhOff(f) + PhNum(f) * PHDR_SIZE <= |f|
  }

  function SegmentNo(f: seq<byte>, i: nat): (s: Segment)
    requires Parsable(f) && i < PhNum(f)
    ensures FitsWords32(s)
  {
    SegmentAt(f, PhOff(f) + i * PHDR_SIZE)
  }

  /** Program header i is a loadable segment that fails a test. */
  predicate Bad(f: seq<byte>, i: nat)
    requires Parsable(f) && i < PhNum(f)
  {
    SegmentNo(f, i).kind == PT_LOAD && !Accepts(SegmentNo(f, i), |f|)
  }

  /** How many program headers precede the first bad one. */
  function GoodCount(f: seq<byte>, i: nat): (n: nat)
    requires Parsable(f) && i <= PhNum(f)
    ensures i <= n <= PhNum(f)
    ensures n < PhNum(f) ==> Bad(f, n)
    ensures forall k :: i <= k < n ==> !Bad(f, k)
    decreases PhNum(f) - i
  {
    if i == PhNum(f) || Bad(f, i) then i else GoodCount(f, i + 1)
  }

  // ---------------------------------------------------------------- memory images

  /** Segment s lands in the user area. */
  predicate Loads(s: Segment, f: seq<byte>) {
    && s.kind == PT_LOAD && s.memsz > 0
    && s.offset + s.filesz <= |f| && s.filesz <= s.memsz
    && USER_PROGRAM_BASE <= s.vaddr && s.vaddr + s.memsz <= USER_END
  }

  /** File bytes, then zeros, over the user area; anything else leaves it alone. */
  function Place(area: seq<byte>, s: Segment, f: seq<byte>): (r: seq<byte>)
    requires |area| == USER_PROGRAM_MAX_SIZE
    ensures |r| == USER_PROGRAM_MAX_SIZE
  {
    if !Loads(s, f) then area
    else
      var a := s.vaddr - USER_PROGRAM_BASE;
      area[..a] + f[s.offset..s.offset + s.filesz] + Zeros(s.memsz - s.filesz) + area[a + s.memsz..]
  }

  /** The in-order fold of the first n program headers. */
  function Fold(area: seq<byte>, f: seq<byte>, n: nat): (r: seq<byte>)
    requires |area| == USER_PROGRAM_MAX_SIZE && Parsable(f) && n <= PhNum(f)
    ensures |r| == USER_PROGRAM_MAX_SIZE
  {
    if n == 0 then area else Place(Fold(area, f, n - 1), SegmentNo(f, n - 1), f)
  }

  /** Address x lies in segment s. */
  predicate Holds(s: Segment, f: seq<byte>, x: nat) {
    Loads(s, f) && s.vaddr <= x < s.vaddr + s.memsz
  }

  /** The byte segment s puts at address x. */
  function SegmentByte(s: Segment, f: seq<byte>, x: nat): byte
    requires Holds(s, f, x)
  {
    if x - s.vaddr < s.filesz then f[s.offset + (x - s.vaddr)] else 0
  }

  lemma PlaceByte(area: seq<byte>, s: Segment, f: seq<byte>, x: nat)
    requires |area| == USER_PROGRAM_MAX_SIZE && USER_PROGRAM_BASE <= x < USER_END
    ensures Place(area, s, f)[x - USER_PROGRAM_BASE] ==
            if Holds(s, f, x) then SegmentByte(s, f, x) else area[x - USER_PROGRAM_BASE]
  {
    if Loads(s, f) {
      var a, b := s.vaddr - USER_PROGRAM_BASE, x - USER_PROGRAM_BASE;
      var file, zero := f[s.offset..s.offset + s.filesz], Zeros(s.memsz - s.filesz);
      var r := Place(area, s, f);
      assert |area[..a] + file + zero| == a + s.memsz;
      if b < a {
        assert r[b] == area[b];
      } else if b < a + s.filesz {
        assert r[b] == file[b - a];
      } else if b < a + s.memsz {
        assert r[b] == zero[b - a - s.filesz];
      } else {
        assert r[b] == area[a + s.memsz..][b - a - s.memsz];
      }
    }
  }

  /** The last of the first n program headers whose segment holds address x, or -1. */
  function Owner(f: seq<byte>, n: nat, x: nat): (k: int)
    requires Parsable(f) && n <= PhNum(f)
    ensures -1 <= k < n
    ensures k >= 0 ==> Holds(SegmentNo(f, k), f, x)
    ensures forall j :: k < j < n ==> !Holds(SegmentNo(f, j), f, x)
  {
    if n == 0 then -1 else if Holds(SegmentNo(f, n - 1), f, x) then n - 1 else Owner(f, n - 1, x)
  }

  /**
   The fold read byte by byte: the last program header covering an address decides
   it, and an address no header covers keeps its old byte.
   */
  lemma {:induction false} FoldByte(area: seq<byte>, f: seq<byte>, n: nat, x: nat)
    requires |area| == USER_PROGRAM_MAX_SIZE && Parsable(f) && n <= PhNum(f)
    requires USER_PROGRAM_BASE <= x < USER_END
    ensures var k := Owner(f, n, x);
            Fold(area, f, n)[x - USER_PROGRAM_BASE] ==
              if k < 0 then area[x - USER_PROGRAM_BASE] else SegmentByte(SegmentNo(f, k), f, x)
    decreases n
  {
    hide Place, SegmentNo, Holds, SegmentByte, Parsable;
    if n > 0 {
      FoldByte(area, f, n - 1, x);
      PlaceByte(Fold(area, f, n - 1), SegmentNo(f, n - 1), f, x);
    }
  }

  // ---------------------------------------------------------------- marked pages

  /** The length argument the loader passes to paging_mark_user_range. */
  function RoundedSize(memsz: nat): nat { AlignUp32(memsz, PAGE_SIZE) }

  /** The ranges marked for the first n program headers, in order. */
  function Marks(f: seq<byte>, n: nat): seq<Range>
    requires Parsable(f) && n <= PhNum(f)
  {
    if n == 0 then []
    else
      var s := SegmentNo(f, n - 1);
      if s.kind == PT_LOAD && s.memsz != 0 then Marks(f, n - 1) + [Range(s.vaddr, RoundedSize(s.memsz))]
      else Marks(f, n - 1)
  }

  predicate Touches(s: Segment, p: nat) {
    s.vaddr < (p + 1) * PAGE_SIZE && p * PAGE_SIZE < s.vaddr + s.memsz
  }

  /**
   The marked pages cover the segment, exceed its last page by at most one page, and
   are exactly its pages when the segment starts on a page boundary.
   */
  lemma MarkCoversSegment(s: Segment, f: seq<byte>, p: nat)
    requires Loads(s, f)
    ensures Touches(s, p) ==> Covers(s.vaddr, RoundedSize(s.memsz), p)
    ensures Covers(s.vaddr, RoundedSize(s.memsz), p) ==>
              Touches(s, p) || p == (s.vaddr + s.memsz - 1) / PAGE_SIZE + 1
    ensures s.vaddr % PAGE_SIZE == 0 ==> (Covers(s.vaddr, RoundedSize(s.memsz), p) <==> Touches(s, p))
  {
    var n := RoundedSize(s.memsz);
    assert n == s.memsz + 4095 - (s.memsz + 4095) % PAGE_SIZE;
    CoversIsOverlap(s.vaddr, n, p);
  }

  lemma {:induction false} MarksInclude(f: seq<byte>, n: nat, i: nat) returns (k: nat)
    requires Parsable(f) && i < n <= PhNum(f)
    requires SegmentNo(f, i).kind == PT_LOAD && SegmentNo(f, i).memsz != 0
    ensures k < |Marks(f, n)| && Marks(f, n)[k] == Range(SegmentNo(f, i).vaddr, RoundedSize(SegmentNo(f, i).memsz))
    decreases n
  {
    hide SegmentNo, RoundedSize;
    if i == n - 1 {
      k := |Marks(f, n)| - 1;
    } else {
      k := MarksInclude(f, n - 1, i);
    }
  }

  /** A program header of another kind passes, loads nothing and marks nothing. */
  lemma OtherKindsPass(area: seq<byte>, f: seq<byte>, i: nat)
    requires |area| == USER_PROGRAM_MAX_SIZE && Parsable(f) && i < PhNum(f) && SegmentNo(f, i).kind != 1
    ensures GoodCount(f, i) == GoodCount(f, i + 1)
    ensures Fold(area, f, i + 1) == Fold(area, f, i) && Marks(f, i + 1) == Marks(f, i)
  {
    hide SegmentNo;
  }

  /** After the loop, every page a loaded segment touches is covered by a marked range. */
  lemma SegmentPagesMarked(before: seq<Range>, f: seq<byte>, n: nat, i: nat, p: nat)
    requires Parsable(f) && i < n <= PhNum(f) && Loads(SegmentNo(f, i), f) && Touches(SegmentNo(f, i), p)
    ensures Marked(before + Marks(f, n), p)
  {
    var s := SegmentNo(f, i);
    var k := MarksInclude(f, n, i);
    MarkCoversSegment(s, f, p);
    assert (before + Marks(f, n))[|before| + k] == Range(s.vaddr, RoundedSize(s.memsz));
  }
}
