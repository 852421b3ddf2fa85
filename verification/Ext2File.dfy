/**
 Reading whole files: load_file_to_memory and ext2_cat.
 */
module Ext2File {
  import opened Words
  import opened Bytes
  import opened Ext2Fs
  import opened Ext2Scan

  function Min(a: nat, b: nat): nat { if a < b then a else b }

  /** The bytes of block index blk of a file; a hole reads as zeros. */
  ghost function DataBlock(fs: Fs, ino: Inode, blk: nat): (r: seq<byte>)
    requires Mounted(fs) && |ino.blocks| == 15 && Readable(fs, ino) && Continues(fs, ino, blk, true)
    ensures |r| == fs.blockSize
  {
    var id := BlockId(fs, ino, blk);
    if id == 0 then Zeros(fs.blockSize) else
      assert id <= MAX_BLOCK;
      DiskBlock(fs, id)
  }

  /** Blocks lo .. hi - 1 of a file, end to end. */
  ghost function Data(fs: Fs, ino: Inode, lo: nat, hi: nat): (r: seq<byte>)
    requires Mounted(fs) && |ino.blocks| == 15 && Readable(fs, ino) && Reachable(fs, ino, hi) && lo <= hi
    ensures |r| == (hi - lo) * fs.blockSize
  {
    if lo == hi then [] else Data(fs, ino, lo, hi - 1) + DataBlock(fs, ino, hi - 1)
  }

  /** The first k blocks can be reached through 12 direct and one single-indirect block. */
  predicate Reachable(fs: Fs, ino: Inode, k: nat)
    requires |ino.blocks| == 15
  {
    k <= DIRECT || (ino.blocks[DIRECT] != 0 && k - DIRECT <= fs.blockSize / 4)
  }

  /** When load_file_to_memory reports success. */
  predicate Loadable(fs: Fs, ino: Inode)
    requires |ino.blocks| == 15 && fs.blockSize > 0
  {
    ino.size != 0 && Reachable(fs, ino, BlockCount(fs, ino))
  }

  /** Blocks a file of this size needs, over unbounded integers. */
  function TrueBlockCount(fs: Fs, ino: Inode): nat
    requires fs.blockSize > 0
  {
    (ino.size + fs.blockSize - 1) / fs.blockSize
  }

  /**
   The verdict is the promised one exactly when rounding the size up does not wrap;
   beyond that the block count wraps to zero and an unreachable file counts as loaded.
   */
  lemma LoadableIsExactIff(fs: Fs, ino: Inode)
    requires Mounted(fs) && |ino.blocks| == 15 && ino.size < WORD_LIMIT
    ensures (Loadable(fs, ino) <==> ino.size != 0 && Reachable(fs, ino, TrueBlockCount(fs, ino))) <==>
            ino.size + fs.blockSize <= WORD_LIMIT
    ensures ino.size + fs.blockSize > WORD_LIMIT ==> Loadable(fs, ino) && BlockCount(fs, ino) == 0
  {
    if ino.size + fs.blockSize > WORD_LIMIT {
      WrappedCount(fs, ino);
    }
  }

  /** Rounding a size close to 4 GiB up to blocks leaves none, where over a million are needed. */
  lemma WrappedCount(fs: Fs, ino: Inode)
    requires Mounted(fs) && ino.size < WORD_LIMIT && ino.size + fs.blockSize > WORD_LIMIT
    ensures BlockCount(fs, ino) == 0 && TrueBlockCount(fs, ino) > 1048575
  {
    var sum := ino.size + fs.blockSize - 1;
    assert sum % WORD_LIMIT == sum - WORD_LIMIT;
    SmallQuotient(sum - WORD_LIMIT, fs.blockSize);
    QuotientBound(sum, fs.blockSize, 1048576);
  }

  // ---------------------------------------------------------------- load_file_to_memory

  /** One block of the file at the current position: zeros for a hole, else the block. */
  method FillBlock(fs: Fs, id: nat, dest: array<byte>, at: nat)
    requires Mounted(fs) && id <= MAX_BLOCK && at + fs.blockSize <= dest.Length
    modifies dest
    ensures dest[at..at + fs.blockSize] == if id == 0 then Zeros(fs.blockSize) else DiskBlock(fs, id)
    ensures forall x :: 0 <= x < dest.Length && !(at <= x < at + fs.blockSize) ==> dest[x] == old(dest[x])
  {
    if id == 0 {
      Memset(dest, at, 0, fs.blockSize);
    } else {
      var b := DiskBlock(fs, id);
      var i := 0;
      while i < |b|
        invariant 0 <= i <= |b|
        invariant dest[at..at + i] == b[..i]
        invariant forall x :: 0 <= x < dest.Length && !(at <= x < at + i) ==> dest[x] == old(dest[x])
      {
        dest[at + i] := b[i];
        i := i + 1;
      }
    }
  }

  /** The first k blocks of the file are in place at the front of `bytes`. */
  ghost predicate Loaded(fs: Fs, ino: Inode, bytes: seq<byte>, k: nat)
    requires Mounted(fs) && |ino.blocks| == 15 && Readable(fs, ino)
  {
    Reachable(fs, ino, k) && k * fs.blockSize <= |bytes| && bytes[..k * fs.blockSize] == Data(fs, ino, 0, k)
  }

  /** Nothing behind the first k blocks has changed. */
  ghost predicate TailKept(before: seq<byte>, after: seq<byte>, size: nat, k: nat) {
    |before| == |after| && forall x :: k * size <= x < |before| ==> after[x] == before[x]
  }

  lemma NothingLoaded(fs: Fs, ino: Inode, bytes: seq<byte>)
    requires Mounted(fs) && |ino.blocks| == 15 && Readable(fs, ino)
    ensures Loaded(fs, ino, bytes, 0) && TailKept(bytes, bytes, fs.blockSize, 0)
  {
  }

  /** The next block of the file goes behind those already in place. */
  method AppendBlock(fs: Fs, ino: Inode, id: nat, dest: array<byte>, blk: nat, ghost total: nat,
                     ghost before: seq<byte>)
    requires Mounted(fs) && |ino.blocks| == 15 && Readable(fs, ino)
    requires Reachable(fs, ino, blk + 1) && id == BlockId(fs, ino, blk) && id <= MAX_BLOCK
    requires blk < total && total * fs.blockSize <= dest.Length
    requires Loaded(fs, ino, dest[..], blk) && TailKept(before, dest[..], fs.blockSize, total)
    modifies dest
    ensures Loaded(fs, ino, dest[..], blk + 1) && TailKept(before, dest[..], fs.blockSize, total)
  {
    hide Readable, BlockId;
    var at := blk * fs.blockSize;
    Within(blk, total, fs.blockSize);
    assert (blk + 1) * fs.blockSize == at + fs.blockSize;
    FillBlock(fs, id, dest, at);
    assert dest[..at] == old(dest[..at]);
    assert dest[..][..at + fs.blockSize] == dest[..at] + dest[at..at + fs.blockSize];
  }

  lemma {:induction false} Within(i: nat, n: nat, p: nat)
    requires i < n
    ensures (i + 1) * p <= n * p
    decreases n
  {
    if i + 1 < n { Within(i, n - 1, p); }
  }

  /** Blocks load_file_to_memory writes before it returns, whatever its verdict. */
  function WrittenBlocks(fs: Fs, ino: Inode): (k: nat)
    requires |ino.blocks| == 15 && fs.blockSize > 0
    ensures Reachable(fs, ino, k) && k <= BlockCount(fs, ino)
    ensures k == BlockCount(fs, ino) <==> Reachable(fs, ino, BlockCount(fs, ino))
  {
    var total := BlockCount(fs, ino);
    if total <= DIRECT || ino.blocks[DIRECT] == 0 then Min(total, DIRECT)
    else DIRECT + Min(total - DIRECT, fs.blockSize / 4)
  }

  lemma NothingToWrite(fs: Fs, ino: Inode)
    requires |ino.blocks| == 15 && Mounted(fs) && ino.size == 0
    ensures WrittenBlocks(fs, ino) == 0
  {
    SmallQuotient(fs.blockSize - 1, fs.blockSize);
  }

  method LoadFile(fs: Fs, n: nat, dest: array<byte>) returns (ok: bool)
    requires Mounted(fs) && 1 <= n <= fs.inodesCount && Readable(fs, InodeAt(fs, n))
    requires dest.Length >= WrittenBlocks(fs, InodeAt(fs, n)) * fs.blockSize
    modifies dest
    ensures ok <==> Loadable(fs, InodeAt(fs, n))
    ensures Loaded(fs, InodeAt(fs, n), dest[..], WrittenBlocks(fs, InodeAt(fs, n)))
    ensures ok ==> WrittenBlocks(fs, InodeAt(fs, n)) == BlockCount(fs, InodeAt(fs, n))
    ensures TailKept(old(dest[..]), dest[..], fs.blockSize, WrittenBlocks(fs, InodeAt(fs, n)))
  {
    hide InodeAt, BlockCount, Loaded, TailKept, Readable;
    var ino := GetInode(fs, n);
    var total := BlockCount(fs, ino);
    if ino.size == 0 {
      NothingToWrite(fs, ino);
      NothingLoaded(fs, ino, dest[..]);
      return false;
    }
    var done := LoadDirect(fs, ino, dest, total, WrittenBlocks(fs, ino));
    if done < total {
      if ino.blocks[DIRECT] == 0 {
        return false;
      }
      done := LoadIndirect(fs, ino, dest, total, WrittenBlocks(fs, ino), old(dest[..]));
    }
    return done >= total;
  }

  /** The direct blocks; `written` is how many blocks are written in all. */
  method LoadDirect(fs: Fs, ino: Inode, dest: array<byte>, total: nat, ghost written: nat) returns (done: nat)
    requires Mounted(fs) && |ino.blocks| == 15 && Readable(fs, ino) && written * fs.blockSize <= dest.Length
    requires Min(total, DIRECT) <= written
    modifies dest
    ensures done == Min(total, DIRECT)
    ensures Loaded(fs, ino, dest[..], done) && TailKept(old(dest[..]), dest[..], fs.blockSize, written)
  {
    done := 0;
    assert Loaded(fs, ino, dest[..], 0);
    while done < total && done < DIRECT
      invariant 0 <= done <= total && done <= DIRECT
      invariant Loaded(fs, ino, dest[..], done) && TailKept(old(dest[..]), dest[..], fs.blockSize, written)
    {
      AppendBlock(fs, ino, ino.blocks[done], dest, done, written, old(dest[..]));
      done := done + 1;
    }
  }

  /** The bytes of the indirect block. */
  method ReadIndirect(fs: Fs, ino: Inode) returns (entries: seq<byte>)
    requires Mounted(fs) && |ino.blocks| == 15 && Readable(fs, ino)
    ensures ino.blocks[DIRECT] in fs.disk && entries == DiskBlock(fs, ino.blocks[DIRECT])
  {
    entries := DiskBlock(fs, ino.blocks[DIRECT]);
  }

  method EntryId(fs: Fs, ino: Inode, entries: seq<byte>, i: nat) returns (id: nat)
    requires Mounted(fs) && |ino.blocks| == 15 && Readable(fs, ino) && ino.blocks[DIRECT] != 0
    requires i < fs.blockSize / 4 && ino.blocks[DIRECT] in fs.disk && entries == DiskBlock(fs, ino.blocks[DIRECT])
    ensures id == BlockId(fs, ino, DIRECT + i) && id <= MAX_BLOCK
  {
    assert IndirectEntry(fs, ino, i) <= MAX_BLOCK;
    id := WordAt(entries, 4 * i);
  }

  /** The blocks behind the single-indirect block. */
  method LoadIndirect(fs: Fs, ino: Inode, dest: array<byte>, total: nat, ghost written: nat, ghost before: seq<byte>)
    returns (done: nat)
    requires Mounted(fs) && |ino.blocks| == 15 && Readable(fs, ino) && written * fs.blockSize <= dest.Length
    requires total > DIRECT && ino.blocks[DIRECT] != 0 && DIRECT + Min(total - DIRECT, fs.blockSize / 4) <= written
    requires Loaded(fs, ino, dest[..], DIRECT) && TailKept(before, dest[..], fs.blockSize, written)
    modifies dest
    ensures done == DIRECT + Min(total - DIRECT, fs.blockSize / 4)
    ensures Loaded(fs, ino, dest[..], done) && TailKept(before, dest[..], fs.blockSize, written)
  {
    hide Loaded, TailKept, Readable, BlockId, IndirectEntry;
    var entries := ReadIndirect(fs, ino);
    done := DIRECT;
    var i := 0;
    while i < fs.blockSize / 4 && done < total
      invariant 0 <= i <= fs.blockSize / 4 && done == DIRECT + i <= total
      invariant Loaded(fs, ino, dest[..], done) && TailKept(before, dest[..], fs.blockSize, written)
    {
      var id := EntryId(fs, ino, entries, i);
      AppendBlock(fs, ino, id, dest, done, written, before);
      done := done + 1;
      i := i + 1;
    }
  }

  // ---------------------------------------------------------------- ext2_cat

  /** What ext2_cat prints from block index blk on, with `remaining` bytes of the file left. */
  ghost function Emitted(fs: Fs, ino: Inode, blk: nat, remaining: nat): seq<byte>
    requires Mounted(fs) && |ino.blocks| == 15 && Readable(fs, ino)
    decreases remaining
  {
    if remaining == 0 || !Continues(fs, ino, blk, true) then []
    else
      var n := Min(remaining, fs.blockSize);
      var id := BlockId(fs, ino, blk);
      assert id <= MAX_BLOCK;
      (if id == 0 then [] else DiskBlock(fs, id)[..n]) + Emitted(fs, ino, blk + 1, remaining - n)
  }

  /** Emit one block, or skip it when it is a hole. */
  method EmitBlock(fs: Fs, id: nat, remaining: nat, out: seq<byte>) returns (out': seq<byte>, remaining': nat)
    requires Mounted(fs) && id <= MAX_BLOCK && remaining > 0
    ensures remaining' == remaining - Min(remaining, fs.blockSize)
    ensures out' == out + if id == 0 then [] else DiskBlock(fs, id)[..Min(remaining, fs.blockSize)]
  {
    var count := Min(remaining, fs.blockSize);
    out' := out;
    if id == 0 {
      return out', remaining - count;
    }
    var buf := DiskBlock(fs, id);
    var j := 0;
    while j < count
      invariant 0 <= j <= count && out' == out + buf[..j]
    {
      out' := out' + [buf[j]];
      j := j + 1;
    }
    return out', remaining - count;
  }

  /** The printing part of ext2_cat, for the inode of a regular file. */
  method CatFile(fs: Fs, ino: Inode) returns (out: seq<byte>)
    requires Mounted(fs) && |ino.blocks| == 15 && Readable(fs, ino)
    ensures out == if ino.size == 0 then [] else Emitted(fs, ino, 0, ino.size) + [10]
  {
    hide Emitted, IndirectEntry;
    out := [];
    var remaining := ino.size;
    if remaining == 0 {
      return;
    }
    var blk := 0;
    assert [] + Emitted(fs, ino, 0, remaining) == Emitted(fs, ino, 0, remaining);
    while remaining > 0 && blk < DIRECT
      invariant 0 <= blk <= DIRECT && Emitted(fs, ino, 0, ino.size) == out + Emitted(fs, ino, blk, remaining)
    {
      EmittedStep(fs, ino, blk, remaining);
      ghost var before, was := out, remaining;
      out, remaining := EmitBlock(fs, ino.blocks[blk], remaining, out);
      assert before + Emitted(fs, ino, blk, was) == out + Emitted(fs, ino, blk + 1, remaining);
      blk := blk + 1;
    }
    if remaining > 0 && blk == DIRECT && ino.blocks[DIRECT] != 0 {
      out := CatIndirect(fs, ino, remaining, out);
    } else {
      EmittedStop(fs, ino, blk, remaining);
    }
    out := out + [10];
  }

  lemma EmittedStep(fs: Fs, ino: Inode, blk: nat, remaining: nat)
    requires Mounted(fs) && |ino.blocks| == 15 && Readable(fs, ino)
    requires remaining > 0 && Continues(fs, ino, blk, true)
    ensures BlockId(fs, ino, blk) <= MAX_BLOCK
    ensures var n := Min(remaining, fs.blockSize);
            var id := BlockId(fs, ino, blk);
            Emitted(fs, ino, blk, remaining) ==
              (if id == 0 then [] else DiskBlock(fs, id)[..n]) + Emitted(fs, ino, blk + 1, remaining - n)
  {
  }

  lemma EmittedStop(fs: Fs, ino: Inode, blk: nat, remaining: nat)
    requires Mounted(fs) && |ino.blocks| == 15 && Readable(fs, ino)
    requires remaining == 0 || !Continues(fs, ino, blk, true)
    ensures Emitted(fs, ino, blk, remaining) == []
  {
  }

  method CatIndirect(fs: Fs, ino: Inode, remaining: nat, out: seq<byte>) returns (out': seq<byte>)
    requires Mounted(fs) && |ino.blocks| == 15 && Readable(fs, ino) && ino.blocks[DIRECT] != 0
    ensures out' == out + Emitted(fs, ino, DIRECT, remaining)
  {
    hide Readable, BlockId, Emitted, IndirectEntry;
    var entries := ReadIndirect(fs, ino);
    out' := out;
    var left := remaining;
    var i := 0;
    while i < fs.blockSize / 4 && left > 0
      invariant 0 <= i <= fs.blockSize / 4
      invariant out + Emitted(fs, ino, DIRECT, remaining) == out' + Emitted(fs, ino, DIRECT + i, left)
    {
      EmittedStep(fs, ino, DIRECT + i, left);
      var id := EntryId(fs, ino, entries, i);
      out', left := EmitBlock(fs, id, left, out');
      i := i + 1;
    }
    EmittedStop(fs, ino, DIRECT + i, left);
  }

  // ---------------------------------------------------------------- load and cat agree

  /** The bytes of a file, starting at block index blk, with hole blocks deleted. */
  ghost function WithoutHoles(fs: Fs, ino: Inode, bytes: seq<byte>, blk: nat): seq<byte>
    requires Mounted(fs) && |ino.blocks| == 15
    decreases |bytes|
  {
    if bytes == [] || !Continues(fs, ino, blk, true) then []
    else
      var n := Min(|bytes|, fs.blockSize);
      (if BlockId(fs, ino, blk) == 0 then [] else bytes[..n]) + WithoutHoles(fs, ino, bytes[n..], blk + 1)
  }

  lemma {:induction false} DataCons(fs: Fs, ino: Inode, lo: nat, hi: nat)
    requires Mounted(fs) && |ino.blocks| == 15 && Readable(fs, ino) && Reachable(fs, ino, hi) && lo < hi
    ensures Data(fs, ino, lo, hi) == DataBlock(fs, ino, lo) + Data(fs, ino, lo + 1, hi)
    decreases hi
  {
    hide Readable, DataBlock;
    if lo + 1 < hi {
      DataCons(fs, ino, lo, hi - 1);
      assert DataBlock(fs, ino, lo) + Data(fs, ino, lo + 1, hi - 1) + DataBlock(fs, ino, hi - 1)
          == DataBlock(fs, ino, lo) + (Data(fs, ino, lo + 1, hi - 1) + DataBlock(fs, ino, hi - 1));
    } else {
      assert Data(fs, ino, lo, lo) == [] && Data(fs, ino, hi, hi) == [];
    }
  }

  lemma {:induction false} EmittedIsKept(fs: Fs, ino: Inode, blk: nat, remaining: nat, hi: nat)
    requires Mounted(fs) && |ino.blocks| == 15 && Readable(fs, ino) && Reachable(fs, ino, hi) && blk <= hi
    requires remaining <= (hi - blk) * fs.blockSize
    ensures Emitted(fs, ino, blk, remaining) ==
            WithoutHoles(fs, ino, Data(fs, ino, blk, hi)[..remaining], blk)
    decreases remaining
  {
    if remaining > 0 {
      var n := Min(remaining, fs.blockSize);
      var bytes := Data(fs, ino, blk, hi)[..remaining];
      assert blk < hi;
      assert (hi - blk) * fs.blockSize == fs.blockSize + (hi - blk - 1) * fs.blockSize;
      DataCons(fs, ino, blk, hi);
      var first, rest := DataBlock(fs, ino, blk), Data(fs, ino, blk + 1, hi);
      assert bytes == (first + rest)[..remaining];
      KeptStep(first, rest, remaining, n);
      EmittedIsKept(fs, ino, blk + 1, remaining - n, hi);
    }
  }

  lemma KeptStep(first: seq<byte>, rest: seq<byte>, remaining: nat, n: nat)
    requires n == Min(remaining, |first|) && remaining <= |first| + |rest|
    ensures (first + rest)[..remaining][..n] == first[..n]
    ensures (first + rest)[..remaining][n..] == rest[..remaining - n]
  {
  }

  ghost predicate HoleFree(fs: Fs, ino: Inode, k: nat)
    requires Mounted(fs) && |ino.blocks| == 15 && Reachable(fs, ino, k)
  {
    forall blk :: 0 <= blk < k ==> BlockId(fs, ino, blk) != 0
  }

  lemma {:induction false} NoHolesNoLoss(fs: Fs, ino: Inode, bytes: seq<byte>, blk: nat, k: nat)
    requires Mounted(fs) && |ino.blocks| == 15 && Reachable(fs, ino, k) && HoleFree(fs, ino, k) && blk <= k
    requires |bytes| <= (k - blk) * fs.blockSize
    ensures WithoutHoles(fs, ino, bytes, blk) == bytes
    decreases |bytes|
  {
    if bytes != [] {
      var n := Min(|bytes|, fs.blockSize);
      assert blk < k;
      assert (k - blk) * fs.blockSize == fs.blockSize + (k - blk - 1) * fs.blockSize;
      NoHolesNoLoss(fs, ino, bytes[n..], blk + 1, k);
      assert bytes == bytes[..n] + bytes[n..];
    }
  }

  /**
   On a file that load_file_to_memory loads, ext2_cat prints the first i_size bytes of
   the loaded image with the hole blocks deleted; on a hole-free file, exactly those bytes.
   */
  lemma CatPrintsLoadedBytes(fs: Fs, ino: Inode)
    requires Mounted(fs) && |ino.blocks| == 15 && Readable(fs, ino)
    requires Loadable(fs, ino) && ino.size + fs.blockSize <= WORD_LIMIT
    ensures ino.size <= BlockCount(fs, ino) * fs.blockSize
    ensures var file := Data(fs, ino, 0, BlockCount(fs, ino))[..ino.size];
            && Emitted(fs, ino, 0, ino.size) == WithoutHoles(fs, ino, file, 0)
            && (HoleFree(fs, ino, BlockCount(fs, ino)) ==> Emitted(fs, ino, 0, ino.size) == file)
  {
    hide Readable, Data, Emitted, WithoutHoles;
    var k := BlockCount(fs, ino);
    RoundsUp(ino.size, fs.blockSize);
    EmittedIsKept(fs, ino, 0, ino.size, k);
    if HoleFree(fs, ino, k) {
      NoHolesNoLoss(fs, ino, Data(fs, ino, 0, k)[..ino.size], 0, k);
    }
  }

  lemma RoundsUp(size: nat, p: nat)
    requires p > 0
    ensures size <= (size + p - 1) / p * p
  {
    var q, r := (size + p - 1) / p, (size + p - 1) % p;
    assert q * p + r == size + p - 1;
  }
}
