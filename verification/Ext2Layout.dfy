/**
 Inodes and block lists as ext2 lays them out, and the proof that the kernel reads back the
 files and directories they describe.
 */
module Ext2Layout {
  import opened Words
  import opened Bytes
  import opened Ext2Fs
  import opened Ext2Dir
  import opened Ext2Scan
  import opened Ext2File
  import opened Ext2Encode

  // ---------------------------------------------------------------- inodes

  /** The fields of an inode the kernel does not look at. */
  datatype Rest = Rest(owner: seq<byte>, times: seq<byte>, tail: seq<byte>) {
    predicate Sized() { |owner| == 2 && |times| == 32 && |tail| == 28 }
  }

  predicate AllWords(ids: seq<nat>) { forall i :: 0 <= i < |ids| ==> ids[i] < WORD_LIMIT }

  /** A list of block ids, one word after another. */
  function EncodeIds(ids: seq<nat>): (b: seq<byte>)
    requires AllWords(ids)
    ensures |b| == 4 * |ids|
  {
    if ids == [] then [] else Le32(ids[0]) + EncodeIds(ids[1..])
  }

  function EncodeInode(mode: nat, size: nat, ids: seq<nat>, rest: Rest): (b: seq<byte>)
    requires mode < 65536 && size < WORD_LIMIT && |ids| == 15 && AllWords(ids) && rest.Sized()
    ensures |b| == INODE_SIZE
  {
    Le16(mode) + rest.owner + Le32(size) + rest.times + EncodeIds(ids) + rest.tail
  }

  lemma {:induction false} IdsReadBack(ids: seq<nat>, i: nat)
    requires AllWords(ids) && i < |ids|
    ensures WordAt(EncodeIds(ids), 4 * i) == ids[i]
    decreases i
  {
    hide WordAt, Le32;
    var b, rest := EncodeIds(ids), EncodeIds(ids[1..]);
    assert b == Le32(ids[0]) + rest;
    if i == 0 {
      assert b[0..4] == Le32(ids[0]);
      WordReadsBack(b, 0, ids[0]);
    } else {
      IdsReadBack(ids[1..], i - 1);
      assert b[4..4 * |ids|] == rest;
      WordInside(b, 4, 4 * (|ids| - 1), 4 * (i - 1));
    }
  }

  /** Decoding an inode gives back the mode, the size and the fifteen block ids that were written. */
  lemma InodeReadsBack(mode: nat, size: nat, ids: seq<nat>, rest: Rest)
    requires mode < 65536 && size < WORD_LIMIT && |ids| == 15 && AllWords(ids) && rest.Sized()
    ensures Decode(EncodeInode(mode, size, ids, rest)) == Inode(mode, size, ids)
  {
    hide WordAt, HalfAt, Le32, Le16, EncodeIds;
    var raw := EncodeInode(mode, size, ids, rest);
    assert raw[0..2] == Le16(mode) && raw[4..8] == Le32(size) && raw[40..100] == EncodeIds(ids);
    HalfReadsBack(raw, 0, mode);
    WordReadsBack(raw, 4, size);
    forall i | 0 <= i < 15 ensures WordAt(raw, 40 + 4 * i) == ids[i] {
      WordInside(raw, 40, 60, 4 * i);
      IdsReadBack(ids, i);
    }
    assert Decode(raw).blocks == ids;
  }

  /** The file type is the top four bits of the mode: a directory exactly for type 4. */
  lemma DirectoryMode(kind: nat, permissions: nat, ino: Inode)
    requires permissions < 4096 && ino.mode == kind * 4096 + permissions
    ensures IsDir(ino) <==> kind == 4
  {
  }

  // ---------------------------------------------------------------- block lists

  /** The inode, with its indirect block if it needs one, lists exactly these blocks at the front. */
  ghost predicate Lists(fs: Fs, ino: Inode, ids: seq<nat>)
    requires Mounted(fs) && |ino.blocks| == 15
  {
    && |ids| <= DIRECT + fs.blockSize / 4
    && (forall i :: 0 <= i < |ids| ==> ids[i] <= MAX_BLOCK)
    && (forall i :: 0 <= i < DIRECT && i < |ids| ==> ino.blocks[i] == ids[i])
    && (|ids| > DIRECT ==>
          && 0 < ino.blocks[DIRECT] <= MAX_BLOCK
          && DiskBlock(fs, ino.blocks[DIRECT])[..4 * (|ids| - DIRECT)] == EncodeIds(ids[DIRECT..]))
  }

  /** Block index i of the inode leads to the i-th listed block, direct or indirect. */
  lemma ListedBlock(fs: Fs, ino: Inode, ids: seq<nat>, i: nat)
    requires Mounted(fs) && |ino.blocks| == 15 && Lists(fs, ino, ids) && i < |ids|
    ensures Reachable(fs, ino, |ids|) && Continues(fs, ino, i, true) && BlockId(fs, ino, i) == ids[i]
    ensures i < DIRECT ==> Continues(fs, ino, i, false)
    ensures i >= DIRECT ==> !Continues(fs, ino, i, false)
  {
    hide WordAt, EncodeIds;
    if i >= DIRECT {
      IdsReadBack(ids[DIRECT..], i - DIRECT);
      WordInside(DiskBlock(fs, ino.blocks[DIRECT]), 0, 4 * (|ids| - DIRECT), 4 * (i - DIRECT));
    }
  }

  /** The size field gives the least number of blocks that hold the bytes. */
  lemma BlocksForSize(fs: Fs, ino: Inode, k: nat)
    requires Mounted(fs) && ino.size + fs.blockSize <= WORD_LIMIT
    requires ino.size <= k * fs.blockSize < ino.size + fs.blockSize
    ensures BlockCount(fs, ino) == k
  {
    var sum := ino.size + fs.blockSize - 1;
    assert sum % WORD_LIMIT == sum;
    QuotientBound(sum, fs.blockSize, k + 1);
    QuotientBound(sum, fs.blockSize, k);
    assert fs.blockSize * (k + 1) == fs.blockSize * k + fs.blockSize && fs.blockSize * k == k * fs.blockSize;
  }

  // ---------------------------------------------------------------- files

  /** Byte j of listed block id; block id 0 is a hole. */
  ghost function StoredByte(fs: Fs, id: nat, j: nat): byte
    requires Mounted(fs) && id <= MAX_BLOCK && j < fs.blockSize
  {
    if id == 0 then 0 else DiskBlock(fs, id)[j]
  }

  /** The file holds these bytes, in the listed blocks, the last of them perhaps in part. */
  ghost predicate Stores(fs: Fs, ino: Inode, ids: seq<nat>, bytes: seq<byte>) {
    && Mounted(fs) && |ino.blocks| == 15 && Lists(fs, ino, ids) && Readable(fs, ino)
    && (forall i :: 0 <= i < |ids| ==> ids[i] <= MAX_BLOCK)
    && ino.size == |bytes| <= |ids| * fs.blockSize < |bytes| + fs.blockSize
    && forall k: nat, j: nat :: k < |ids| && j < fs.blockSize && k * fs.blockSize + j < |bytes| ==>
         StoredByte(fs, ids[k], j) == bytes[k * fs.blockSize + j]
  }

  lemma {:induction false} DataAt(fs: Fs, ino: Inode, ids: seq<nat>, n: nat, k: nat, j: nat)
    requires Mounted(fs) && |ino.blocks| == 15 && Lists(fs, ino, ids) && Readable(fs, ino)
    requires k < n <= |ids| && j < fs.blockSize
    ensures Reachable(fs, ino, n) && k * fs.blockSize + j < n * fs.blockSize
    ensures Data(fs, ino, 0, n)[k * fs.blockSize + j] == StoredByte(fs, ids[k], j)
    decreases n
  {
    hide Readable, BlockId;
    ListedBlock(fs, ino, ids, n - 1);
    Within(k, n, fs.blockSize);
    assert (k + 1) * fs.blockSize == k * fs.blockSize + fs.blockSize;
    assert |Data(fs, ino, 0, n - 1)| == (n - 1) * fs.blockSize;
    if k < n - 1 { DataAt(fs, ino, ids, n - 1, k, j); }
  }

  /** A file that fits its blocks is far from the size at which the rounding wraps. */
  lemma StoredSize(fs: Fs, ino: Inode, ids: seq<nat>, bytes: seq<byte>)
    requires Stores(fs, ino, ids, bytes)
    ensures ino.size + fs.blockSize <= WORD_LIMIT && BlockCount(fs, ino) == |ids| && Reachable(fs, ino, |ids|)
  {
    Monotone(fs.blockSize, |ids|, 1036);
    assert fs.blockSize * |ids| == |ids| * fs.blockSize;
    BlocksForSize(fs, ino, |ids|);
    if |ids| > 0 { ListedBlock(fs, ino, ids, |ids| - 1); }
  }

  /**
   A stored file loads exactly if it is not empty, its loaded image begins with its bytes, and
   ext2_cat prints those bytes if no listed block is a hole.
   */
  lemma FileReadsBack(fs: Fs, ino: Inode, ids: seq<nat>, bytes: seq<byte>)
    requires Stores(fs, ino, ids, bytes)
    ensures BlockCount(fs, ino) == |ids| && Reachable(fs, ino, |ids|) && (Loadable(fs, ino) <==> bytes != [])
    ensures Data(fs, ino, 0, |ids|)[..|bytes|] == bytes
    ensures bytes != [] && 0 !in ids ==> Emitted(fs, ino, 0, ino.size) == bytes
  {
    hide Lists, Readable, Data, Emitted, WithoutHoles, BlockId;
    StoredSize(fs, ino, ids, bytes);
    forall x | 0 <= x < |bytes| ensures Data(fs, ino, 0, |ids|)[x] == bytes[x] {
      ByteReadsBack(fs, ino, ids, bytes, x);
    }
    if bytes != [] && 0 !in ids {
      forall blk | 0 <= blk < |ids| ensures BlockId(fs, ino, blk) != 0 { ListedBlock(fs, ino, ids, blk); }
      CatPrintsLoadedBytes(fs, ino);
    }
  }

  lemma ByteReadsBack(fs: Fs, ino: Inode, ids: seq<nat>, bytes: seq<byte>, x: nat)
    requires Stores(fs, ino, ids, bytes) && Reachable(fs, ino, |ids|) && x < |bytes|
    ensures Data(fs, ino, 0, |ids|)[x] == bytes[x]
  {
    hide Lists, Readable, Data, BlockId;
    var k, j := x / fs.blockSize, x % fs.blockSize;
    assert x == fs.blockSize * k + j && fs.blockSize * k == k * fs.blockSize;
    QuotientBound(x, fs.blockSize, |ids|);
    assert fs.blockSize * |ids| == |ids| * fs.blockSize;
    DataAt(fs, ino, ids, |ids|, k, j);
  }

  // ---------------------------------------------------------------- directories

  /** Every listed block holds the records of its place in `rss`. */
  ghost predicate StoresRecords(fs: Fs, ino: Inode, ids: seq<nat>, rss: seq<seq<Raw>>) {
    && Mounted(fs) && |ino.blocks| == 15 && Lists(fs, ino, ids) && Readable(fs, ino)
    && |rss| == |ids| && ino.size == |ids| * fs.blockSize
    && forall k :: 0 <= k < |ids| ==>
         && 0 < ids[k] <= MAX_BLOCK && AllEncodable(rss[k], fs.blockSize)
         && DiskBlock(fs, ids[k]) == EncodeAll(rss[k])
  }

  /** The live entries of several blocks of records, in order. */
  function AllLive(rss: seq<seq<Raw>>): seq<DirEntry> {
    if rss == [] then [] else LiveOnes(rss[0]) + AllLive(rss[1..])
  }

  /** The blocks a scan gets to: all of them, or the direct ones if it has no room for the indirect block. */
  function Scanned(rss: seq<seq<Raw>>, canAlloc: bool): seq<seq<Raw>> {
    if canAlloc || |rss| <= DIRECT then rss else rss[..DIRECT]
  }

  lemma {:induction false} EntriesReadBack(fs: Fs, ino: Inode, ids: seq<nat>, rss: seq<seq<Raw>>, tail: seq<byte>,
                                           canAlloc: bool, k: nat)
    requires StoresRecords(fs, ino, ids, rss) && |tail| >= SLACK && BlockCount(fs, ino) == |ids|
    requires k <= |Scanned(rss, canAlloc)|
    ensures EntriesFrom(fs, ino, tail, canAlloc, k) == AllLive(Scanned(rss, canAlloc)[k..])
    decreases |ids| - k
  {
    hide Lists, Readable, BlockId, BlockCount, Records, LiveOnes, EncodeAll;
    var read := Scanned(rss, canAlloc);
    if k < |ids| { ListedBlock(fs, ino, ids, k); }
    if k < |read| {
      BlockReadsBack(fs, ids[k], rss[k], tail);
      EntriesReadBack(fs, ino, ids, rss, tail, canAlloc, k + 1);
      assert read[k..][0] == rss[k] && read[k..][1..] == read[k + 1..];
    }
  }

  lemma BlockReadsBack(fs: Fs, id: nat, rs: seq<Raw>, tail: seq<byte>)
    requires Mounted(fs) && 0 < id <= MAX_BLOCK && |tail| >= SLACK
    requires AllEncodable(rs, fs.blockSize) && DiskBlock(fs, id) == EncodeAll(rs)
    ensures BlockEntries(fs, id, tail) == LiveOnes(rs)
  {
    hide Records, LiveOnes, EncodeAll;
    RecordsRoundTrip(rs, fs.blockSize, tail);
  }

  /** A stored directory reads as its live records, block after block, whatever lies behind the buffer. */
  lemma DirectoryReadsBack(fs: Fs, ino: Inode, ids: seq<nat>, rss: seq<seq<Raw>>, tail: seq<byte>, canAlloc: bool)
    requires StoresRecords(fs, ino, ids, rss) && |tail| >= SLACK
    ensures EntriesFrom(fs, ino, tail, canAlloc, 0) == AllLive(Scanned(rss, canAlloc))
  {
    hide Lists, Readable, AllEncodable, EncodeAll, EntriesFrom, BlockCount;
    DirectorySize(fs, ino, ids, rss);
    EntriesReadBack(fs, ino, ids, rss, tail, canAlloc, 0);
    assert Scanned(rss, canAlloc)[0..] == Scanned(rss, canAlloc);
  }

  lemma DirectorySize(fs: Fs, ino: Inode, ids: seq<nat>, rss: seq<seq<Raw>>)
    requires StoresRecords(fs, ino, ids, rss)
    ensures BlockCount(fs, ino) == |ids|
  {
    hide Readable, EncodeAll;
    Monotone(fs.blockSize, |ids|, 1036);
    assert fs.blockSize * |ids| == |ids| * fs.blockSize;
    BlocksForSize(fs, ino, |ids|);
  }
}
