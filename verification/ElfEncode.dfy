/**
 ELF programs written field by field, and the proof that the loader's reading gives them back.
 */
module ElfEncode {
  import opened Words
  import opened Bytes
  import opened KernelPaging
  import opened MemoryInit
  import opened ElfImage

  /** A loadable piece of a program: bytes for address vaddr on, completed with zeros to memsz bytes. */
  datatype Piece = Piece(vaddr: nat, bytes: seq<byte>, memsz: nat)

  predicate Fits(p: Piece) {
    USER_PROGRAM_BASE <= p.vaddr && p.vaddr + p.memsz <= USER_END && 0 < p.memsz && |p.bytes| <= p.memsz
  }

  /** The 52 bytes of the file header, field by field. */
  function FileHeader(entry: nat, count: nat): (b: seq<byte>)
    requires entry < WORD_LIMIT && count < 65536
    ensures |b| == 52
  {
    [0x7F, 0x45, 0x4C, 0x46, 1, 1, 1] + Zeros(9) + Le16(2) + Le16(3) + Le32(1) + Le32(entry) + Le32(52) + Zeros(8) +
    Le16(52) + Le16(32) + Le16(count) + Zeros(6)
  }

  /** The 32 bytes of a program header, field by field. */
  function ProgramHeader(p: Piece, offset: nat): (b: seq<byte>)
    requires Fits(p) && offset < WORD_LIMIT
    ensures |b| == 32
  {
    Le32(1) + Le32(offset) + Le32(p.vaddr) + Zeros(4) + Le32(|p.bytes|) + Le32(p.memsz) + Zeros(8)
  }

  function Bodies(ps: seq<Piece>): seq<byte> {
    if ps == [] then [] else ps[0].bytes + Bodies(ps[1..])
  }

  /** Where the bytes of piece i begin among the bodies. */
  function BodyStart(ps: seq<Piece>, i: nat): nat
    requires i <= |ps|
  {
    if i == 0 then 0 else |ps[0].bytes| + BodyStart(ps[1..], i - 1)
  }

  predicate Writable(ps: seq<Piece>, start: nat) {
    (forall p :: p in ps ==> Fits(p)) && start + |Bodies(ps)| < WORD_LIMIT
  }

  /** The program headers of the pieces, the first of which has its bytes at offset `start` of the file. */
  function HeaderTable(ps: seq<Piece>, start: nat): (b: seq<byte>)
    requires Writable(ps, start)
    ensures |b| == 32 * |ps|
  {
    if ps == [] then []
    else
      assert ps[0] in ps && forall p :: p in ps[1..] ==> p in ps;
      ProgramHeader(ps[0], start) + HeaderTable(ps[1..], start + |ps[0].bytes|)
  }

  /** A whole file: header, program headers, bytes. */
  ghost predicate IsProgram(f: seq<byte>, entry: nat, ps: seq<Piece>) {
    && entry < WORD_LIMIT && |ps| < 65536 && Writable(ps, 52 + 32 * |ps|) && |f| < WORD_LIMIT
    && f == FileHeader(entry, |ps|) + HeaderTable(ps, 52 + 32 * |ps|) + Bodies(ps)
  }

  // ---------------------------------------------------------------- the file header

  /** The header tests on the bytes of the file, without the program header table. */
  lemma HeaderOkMeans(f: seq<byte>)
    requires |f| < WORD_LIMIT
    ensures HeaderOk(f) <==>
            && |f| >= 52
            && f[0..7] == [0x7F, 0x45, 0x4C, 0x46, 1, 1, 1] && f[18..24] == [3, 0, 1, 0, 0, 0]
            && f[40..44] == [52, 0, 32, 0] && PhOff(f) + 32 * PhNum(f) <= |f|
  {
    if |f| >= 52 {
      MagicWord(f);
      MachineWord(f);
      SizeHalves(f);
      TableFitsIsExact(PhOff(f), PhNum(f), |f|);
    }
  }

  lemma MagicWord(f: seq<byte>)
    requires |f| >= 52
    ensures WordAt(f, 0) == ELF32_MAGIC && f[4] == 1 && f[5] == 1 && f[6] == 1 <==>
            f[0..7] == [0x7F, 0x45, 0x4C, 0x46, 1, 1, 1]
  {
    var b := f[0..7];
    assert b[0] == f[0] && b[1] == f[1] && b[2] == f[2] && b[3] == f[3] && b[4] == f[4] && b[5] == f[5] && b[6] == f[6];
  }

  lemma MachineWord(f: seq<byte>)
    requires |f| >= 52
    ensures HalfAt(f, 18) == 3 && WordAt(f, 20) == 1 <==> f[18..24] == [3, 0, 1, 0, 0, 0]
  {
    var b := f[18..24];
    assert b[0] == f[18] && b[1] == f[19] && b[2] == f[20] && b[3] == f[21] && b[4] == f[22] && b[5] == f[23];
  }

  lemma SizeHalves(f: seq<byte>)
    requires |f| >= 52
    ensures HalfAt(f, 40) == EHDR_SIZE && HalfAt(f, 42) == PHDR_SIZE <==> f[40..44] == [52, 0, 32, 0]
  {
    var b := f[40..44];
    assert b[0] == f[40] && b[1] == f[41] && b[2] == f[42] && b[3] == f[43];
  }

  lemma HeaderPieces(entry: nat, count: nat)
    requires entry < WORD_LIMIT && count < 65536
    ensures var b := FileHeader(entry, count);
            && b[0..7] == [0x7F, 0x45, 0x4C, 0x46, 1, 1, 1] && b[18..20] == Le16(3) && b[20..24] == Le32(1)
            && b[24..28] == Le32(entry) && b[28..32] == Le32(52) && b[40..42] == Le16(52) && b[42..44] == Le16(32)
            && b[44..46] == Le16(count)
  {
    hide Le16, Le32, Zeros;
  }

  lemma HeaderReadsBack(f: seq<byte>, entry: nat, count: nat)
    requires entry < WORD_LIMIT && count < 65536 && 52 + 32 * count <= |f| < WORD_LIMIT
    requires f[0..52] == FileHeader(entry, count)
    ensures HeaderOk(f) && EntryPoint(f) == entry && PhOff(f) == 52 && PhNum(f) == count
  {
    hide FileHeader, Le16, Le32, WordAt, HalfAt, HeaderOk;
    HeaderPieces(entry, count);
    SliceOfSlice(f, 0, 52, 0, 7);
    SliceOfSlice(f, 0, 52, 18, 20);
    SliceOfSlice(f, 0, 52, 20, 24);
    SliceOfSlice(f, 0, 52, 24, 28);
    SliceOfSlice(f, 0, 52, 28, 32);
    SliceOfSlice(f, 0, 52, 40, 42);
    SliceOfSlice(f, 0, 52, 42, 44);
    SliceOfSlice(f, 0, 52, 44, 46);
    WordReadsBack(f, 24, entry);
    WordReadsBack(f, 28, 52);
    HalfReadsBack(f, 44, count);
    SmallFields(f);
    HeaderOkMeans(f);
  }

  lemma SmallFields(f: seq<byte>)
    requires |f| >= 52 && f[18..20] == Le16(3) && f[20..24] == Le32(1) && f[40..42] == Le16(52) && f[42..44] == Le16(32)
    ensures f[18..24] == [3, 0, 1, 0, 0, 0] && f[40..44] == [52, 0, 32, 0]
  {
    assert f[18..24] == f[18..20] + f[20..24] && f[40..44] == f[40..42] + f[42..44];
  }

  // ---------------------------------------------------------------- the program headers

  lemma SegmentPieces(p: Piece, offset: nat)
    requires Fits(p) && offset < WORD_LIMIT
    ensures var b := ProgramHeader(p, offset);
            && b[0..4] == Le32(1) && b[4..8] == Le32(offset) && b[8..12] == Le32(p.vaddr)
            && b[16..20] == Le32(|p.bytes|) && b[20..24] == Le32(p.memsz)
  {
    hide Le32, Zeros;
  }

  lemma SegmentReadsBack(f: seq<byte>, o: nat, p: Piece, offset: nat)
    requires Fits(p) && offset < WORD_LIMIT && o + 32 <= |f| && f[o..o + 32] == ProgramHeader(p, offset)
    ensures SegmentAt(f, o) == Segment(PT_LOAD, offset, p.vaddr, |p.bytes|, p.memsz)
  {
    hide ProgramHeader, Le32, WordAt;
    SegmentPieces(p, offset);
    SliceOfSlice(f, o, o + 32, 0, 4);
    SliceOfSlice(f, o, o + 32, 4, 8);
    SliceOfSlice(f, o, o + 32, 8, 12);
    SliceOfSlice(f, o, o + 32, 16, 20);
    SliceOfSlice(f, o, o + 32, 20, 24);
    WordReadsBack(f, o, 1);
    WordReadsBack(f, o + 4, offset);
    WordReadsBack(f, o + 8, p.vaddr);
    WordReadsBack(f, o + 16, |p.bytes|);
    WordReadsBack(f, o + 20, p.memsz);
  }

  lemma {:induction false} TableAt(ps: seq<Piece>, start: nat, i: nat)
    requires Writable(ps, start) && i < |ps|
    ensures ps[i] in ps && start + BodyStart(ps, i) < WORD_LIMIT
    ensures HeaderTable(ps, start)[32 * i..32 * i + 32] == ProgramHeader(ps[i], start + BodyStart(ps, i))
    decreases i
  {
    hide ProgramHeader, Fits;
    BodyInside(ps, i);
    assert forall p :: p in ps[1..] ==> p in ps;
    var rest := HeaderTable(ps[1..], start + |ps[0].bytes|);
    if i > 0 {
      TableAt(ps[1..], start + |ps[0].bytes|, i - 1);
      assert HeaderTable(ps, start)[32 * i..32 * i + 32] == rest[32 * (i - 1)..32 * (i - 1) + 32];
    }
  }

  /** The bytes of piece i stand where they should among the bodies. */
  lemma {:induction false} BodyInside(ps: seq<Piece>, i: nat)
    requires i < |ps|
    ensures BodyStart(ps, i) + |ps[i].bytes| <= |Bodies(ps)|
    ensures Bodies(ps)[BodyStart(ps, i)..BodyStart(ps, i) + |ps[i].bytes|] == ps[i].bytes
    decreases i
  {
    if i > 0 {
      BodyInside(ps[1..], i - 1);
      var n, rest := |ps[0].bytes|, Bodies(ps[1..]);
      var lo := BodyStart(ps[1..], i - 1);
      assert Bodies(ps)[n + lo..n + lo + |ps[i].bytes|] == rest[lo..lo + |ps[i].bytes|];
    }
  }

  /** Segment i of a program, as the loader reads it, is piece i. */
  lemma ProgramSegment(f: seq<byte>, entry: nat, ps: seq<Piece>, i: nat)
    requires IsProgram(f, entry, ps) && i < |ps|
    ensures HeaderOk(f) && Parsable(f) && EntryPoint(f) == entry && PhNum(f) == |ps|
    ensures var s := SegmentNo(f, i);
            && s.kind == PT_LOAD && s.vaddr == ps[i].vaddr && s.memsz == ps[i].memsz && s.filesz == |ps[i].bytes|
            && s.offset + s.filesz <= |f| && f[s.offset..s.offset + s.filesz] == ps[i].bytes
            && Fits(ps[i])
  {
    hide FileHeader, HeaderTable, HeaderOk, WordAt, HalfAt, Bodies;
    ProgramHeads(f, entry, ps);
    var n := |ps|;
    var start := 52 + 32 * n;
    TableAt(ps, start, i);
    BodyInside(ps, i);
    var table := HeaderTable(ps, start);
    assert f[52..52 + 32 * n] == table;
    SliceOfSlice(f, 52, 52 + 32 * n, 32 * i, 32 * i + 32);
    SegmentReadsBack(f, 52 + 32 * i, ps[i], start + BodyStart(ps, i));
    assert f[start..|f|] == Bodies(ps);
    SliceOfSlice(f, start, |f|, BodyStart(ps, i), BodyStart(ps, i) + |ps[i].bytes|);
  }

  lemma ProgramHeads(f: seq<byte>, entry: nat, ps: seq<Piece>)
    requires IsProgram(f, entry, ps)
    ensures HeaderOk(f) && Parsable(f) && EntryPoint(f) == entry && PhNum(f) == |ps| && PhOff(f) == 52
    ensures |f| == 52 + 32 * |ps| + |Bodies(ps)|
  {
    hide FileHeader, HeaderTable, HeaderOk, WordAt, HalfAt, Bodies;
    assert f[0..52] == FileHeader(entry, |ps|);
    HeaderReadsBack(f, entry, |ps|);
  }

  // ---------------------------------------------------------------- what is loaded

  /** The loader finds nothing wrong with a program whose pieces lie in the user area. */
  lemma {:induction false} ProgramIsGood(f: seq<byte>, entry: nat, ps: seq<Piece>, i: nat)
    requires IsProgram(f, entry, ps) && i <= |ps|
    ensures Parsable(f) && PhNum(f) == |ps| && GoodCount(f, i) == |ps|
    decreases |ps| - i
  {
    hide IsProgram, HeaderOk, Accepts, SegmentNo;
    ProgramCounts(f, entry, ps);
    if i < |ps| {
      ProgramSegment(f, entry, ps, i);
      PieceAccepted(f, ps[i], SegmentNo(f, i));
      ProgramIsGood(f, entry, ps, i + 1);
    }
  }

  lemma ProgramCounts(f: seq<byte>, entry: nat, ps: seq<Piece>)
    requires IsProgram(f, entry, ps)
    ensures Parsable(f) && PhNum(f) == |ps| && |f| < WORD_LIMIT
  {
    hide FileHeader, HeaderTable, WordAt, HalfAt, Bodies, HeaderOk;
    ProgramHeads(f, entry, ps);
  }

  lemma PieceAccepted(f: seq<byte>, p: Piece, s: Segment)
    requires Fits(p) && FitsWords32(s) && |f| < WORD_LIMIT && s.offset + s.filesz <= |f|
    requires s.vaddr == p.vaddr && s.memsz == p.memsz && s.filesz == |p.bytes|
    ensures Accepts(s, |f|) && (s.kind == PT_LOAD ==> Loads(s, f))
  {
    AcceptsIsExact(s, |f|);
  }

  predicate Covers(p: Piece, x: nat) { p.vaddr <= x < p.vaddr + p.memsz }

  lemma PieceHolds(f: seq<byte>, entry: nat, ps: seq<Piece>, i: nat, x: nat)
    requires IsProgram(f, entry, ps) && i < |ps|
    ensures Parsable(f) && i < PhNum(f) && (Holds(SegmentNo(f, i), f, x) <==> Covers(ps[i], x))
    ensures Covers(ps[i], x) ==>
              SegmentByte(SegmentNo(f, i), f, x) ==
                if x - ps[i].vaddr < |ps[i].bytes| then ps[i].bytes[x - ps[i].vaddr] else 0
  {
    hide IsProgram, HeaderOk, SegmentNo, Accepts;
    ProgramSegment(f, entry, ps, i);
    ProgramCounts(f, entry, ps);
    var s := SegmentNo(f, i);
    PieceAccepted(f, ps[i], s);
    if Covers(ps[i], x) && x - ps[i].vaddr < |ps[i].bytes| {
      assert f[s.offset..s.offset + s.filesz][x - s.vaddr] == f[s.offset + (x - s.vaddr)];
    }
  }

  /**
   What is written is loaded: the loader accepts the program and finds its entry point; the last
   piece that covers an address decides its byte, its own byte or the zero behind; every other
   byte of the user area stays as it was.
   */
  lemma ProgramLoads(area: seq<byte>, f: seq<byte>, entry: nat, ps: seq<Piece>, x: nat)
    requires IsProgram(f, entry, ps) && |area| == USER_PROGRAM_MAX_SIZE && USER_PROGRAM_BASE <= x < USER_END
    ensures HeaderOk(f) && Parsable(f) && EntryPoint(f) == entry && GoodCount(f, 0) == PhNum(f) == |ps|
    ensures forall i :: 0 <= i < |ps| && Covers(ps[i], x) && (forall j :: i < j < |ps| ==> !Covers(ps[j], x)) ==>
              Fold(area, f, |ps|)[x - USER_PROGRAM_BASE] ==
                if x - ps[i].vaddr < |ps[i].bytes| then ps[i].bytes[x - ps[i].vaddr] else 0
    ensures (forall i :: 0 <= i < |ps| ==> !Covers(ps[i], x)) ==>
              Fold(area, f, |ps|)[x - USER_PROGRAM_BASE] == area[x - USER_PROGRAM_BASE]
  {
    hide IsProgram, HeaderOk, SegmentNo, Covers, Holds, SegmentByte, Fold, Parsable;
    ProgramEntry(f, entry, ps);
    ProgramCounts(f, entry, ps);
    ProgramIsGood(f, entry, ps, 0);
    FoldByte(area, f, |ps|, x);
    var k := Owner(f, |ps|, x);
    forall i | 0 <= i < |ps| ensures Holds(SegmentNo(f, i), f, x) <==> Covers(ps[i], x) {
      PieceHolds(f, entry, ps, i, x);
    }
    if k >= 0 { PieceHolds(f, entry, ps, k, x); }
  }

  lemma ProgramEntry(f: seq<byte>, entry: nat, ps: seq<Piece>)
    requires IsProgram(f, entry, ps)
    ensures HeaderOk(f) && EntryPoint(f) == entry
  {
    hide FileHeader, HeaderTable, WordAt, HalfAt, Bodies, HeaderOk;
    ProgramHeads(f, entry, ps);
  }

  /** Every page a piece touches is covered by a range the loader marks. */
  lemma ProgramPagesMarked(before: seq<Range>, f: seq<byte>, entry: nat, ps: seq<Piece>, i: nat, p: nat)
    requires IsProgram(f, entry, ps) && i < |ps|
    requires ps[i].vaddr < (p + 1) * PAGE_SIZE && p * PAGE_SIZE < ps[i].vaddr + ps[i].memsz
    ensures Parsable(f) && PhNum(f) == |ps| && Marked(before + Marks(f, |ps|), p)
  {
    hide IsProgram, HeaderOk, SegmentNo, Marked, Marks, Accepts;
    ProgramSegment(f, entry, ps, i);
    ProgramCounts(f, entry, ps);
    PieceAccepted(f, ps[i], SegmentNo(f, i));
    SegmentPagesMarked(before, f, |ps|, i, p);
  }
}
