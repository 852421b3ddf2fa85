/**
 An ext2 file system with one block group and 128-byte inodes, read block by block.
 */
module Ext2Fs {
  import opened Words
  import opened Bytes

  const MAX_BLOCK: nat := 0x10_0000    // read_fs_block refuses larger ids
  const INODE_SIZE: nat := 128
  const DIRECT: nat := 12

  /** The mounted file system; `disk` maps a block id to its bytes. */
  datatype Fs = Fs(blockSize: nat, inodesCount: nat, inodeTable: nat, disk: map<nat, seq<byte>>)

  /** Fields of struct ext2_inode the kernel looks at. */
  datatype Inode = Inode(mode: nat, size: nat, blocks: seq<nat>)

  ghost predicate Mounted(fs: Fs) {
    && (fs.blockSize == 1024 || fs.blockSize == 2048 || fs.blockSize == 4096)
    && (forall b :: 0 <= b <= MAX_BLOCK ==> b in fs.disk && |fs.disk[b]| == fs.blockSize)
    && fs.inodeTable + fs.inodesCount / (fs.blockSize / INODE_SIZE) < MAX_BLOCK
  }

  function DiskBlock(fs: Fs, b: nat): seq<byte>
    requires b in fs.disk
  {
    fs.disk[b]
  }

  // ---------------------------------------------------------------- inodes

  /** The first k blocks of the inode table, end to end. */
  ghost function TableBytes(fs: Fs, k: nat): seq<byte>
    requires Mounted(fs) && fs.inodeTable + k <= MAX_BLOCK + 1
  {
    if k == 0 then [] else TableBytes(fs, k - 1) + DiskBlock(fs, fs.inodeTable + k - 1)
  }

  /** The table block inode n lies in, and its offset there, as read_inode computes them. */
  function InodeBlock(fs: Fs, n: nat): nat
    requires fs.blockSize >= INODE_SIZE && n >= 1
  {
    (n - 1) / (fs.blockSize / INODE_SIZE)
  }

  function InodeOffset(fs: Fs, n: nat): nat
    requires fs.blockSize >= INODE_SIZE && n >= 1
  {
    (n - 1) % (fs.blockSize / INODE_SIZE) * INODE_SIZE
  }

  /** Inode n occupies bytes 128 (n - 1) .. 128 n of the inode table. */
  ghost function InodeBytes(fs: Fs, n: nat): (r: seq<byte>)
    requires Mounted(fs) && 1 <= n <= fs.inodesCount
    ensures |r| == INODE_SIZE
  {
    InodeInside(fs, n);
    TableLength(fs, InodeBlock(fs, n) + 1);
    TableBytes(fs, InodeBlock(fs, n) + 1)[INODE_SIZE * (n - 1)..INODE_SIZE * n]
  }

  lemma {:induction false} TableLength(fs: Fs, k: nat)
    requires Mounted(fs) && fs.inodeTable + k <= MAX_BLOCK + 1
    ensures |TableBytes(fs, k)| == k * fs.blockSize
  {
    if k > 0 { TableLength(fs, k - 1); }
  }

  lemma InodeInside(fs: Fs, n: nat)
    requires Mounted(fs) && 1 <= n <= fs.inodesCount
    ensures fs.inodeTable + InodeBlock(fs, n) + 1 <= MAX_BLOCK + 1
    ensures INODE_SIZE * (n - 1) == InodeBlock(fs, n) * fs.blockSize + InodeOffset(fs, n)
    ensures InodeOffset(fs, n) + INODE_SIZE <= fs.blockSize
    ensures (InodeBlock(fs, n) + 1) * fs.blockSize == InodeBlock(fs, n) * fs.blockSize + fs.blockSize
  {
    var i := n - 1;
    if fs.blockSize == 1024 {
      assert i == i / 8 * 8 + i % 8;
    } else if fs.blockSize == 2048 {
      assert i == i / 16 * 16 + i % 16;
    } else {
      assert i == i / 32 * 32 + i % 32;
    }
  }

  function Decode(raw: seq<byte>): (ino: Inode)
    requires |raw| == INODE_SIZE
    ensures |ino.blocks| == 15 && ino.size < WORD_LIMIT
  {
    Inode(HalfAt(raw, 0), WordAt(raw, 4), seq(15, i requires 0 <= i < 15 => WordAt(raw, 40 + 4 * i)))
  }

  ghost function InodeAt(fs: Fs, n: nat): (ino: Inode)
    requires Mounted(fs) && 1 <= n <= fs.inodesCount
    ensures |ino.blocks| == 15 && ino.size < WORD_LIMIT
  {
    Decode(InodeBytes(fs, n))
  }

  predicate IsDir(ino: Inode) { ino.mode / 0x1000 == 4 }

  /**
   read_inode: block and offset arithmetic, then a byte copy into the caller's struct.
   A number outside the inode table leaves the struct as it was.
   */
  method ReadInode(fs: Fs, n: nat, dst: array<byte>)
    requires Mounted(fs) && dst.Length == INODE_SIZE
    modifies dst
    ensures dst[..] == if 1 <= n <= fs.inodesCount then InodeBytes(fs, n) else old(dst[..])
  {
    hide InodeBytes;
    if n == 0 || n > fs.inodesCount {
      return;
    }
    InodeSlice(fs, n);
    var index := n - 1;
    var perBlock := fs.blockSize / INODE_SIZE;
    var blockNum := fs.inodeTable + index / perBlock;
    var offset := index % perBlock * INODE_SIZE;
    var buf := DiskBlock(fs, blockNum);
    var i := 0;
    while i < INODE_SIZE
      invariant 0 <= i <= INODE_SIZE
      invariant forall j :: 0 <= j < i ==> dst[j] == buf[offset + j]
    {
      dst[i] := buf[offset + i];
      i := i + 1;
    }
    assert dst[..] == buf[offset..offset + INODE_SIZE];
  }

  /** The fields of an inode that exists. */
  method GetInode(fs: Fs, n: nat) returns (ino: Inode)
    requires Mounted(fs) && 1 <= n <= fs.inodesCount
    ensures ino == InodeAt(fs, n)
  {
    var raw := new byte[INODE_SIZE](_ => 0);
    ReadInode(fs, n, raw);
    ino := Decode(raw[..]);
  }

  lemma SliceOfAppend(a: seq<byte>, b: seq<byte>, o: nat, n: nat)
    requires o + n <= |b|
    ensures (a + b)[|a| + o..|a| + o + n] == b[o..o + n]
  {
  }

  /** The slice read_inode copies is the inode's place in the table. */
  lemma InodeSlice(fs: Fs, n: nat)
    requires Mounted(fs) && 1 <= n <= fs.inodesCount
    ensures var b, o := fs.inodeTable + InodeBlock(fs, n), InodeOffset(fs, n);
            b <= MAX_BLOCK && o + INODE_SIZE <= fs.blockSize && InodeBytes(fs, n) == DiskBlock(fs, b)[o..o + INODE_SIZE]
  {
    var k, o := InodeBlock(fs, n), InodeOffset(fs, n);
    InodeInside(fs, n);
    TableLength(fs, k);
    SliceOfAppend(TableBytes(fs, k), DiskBlock(fs, fs.inodeTable + k), o, INODE_SIZE);
  }
}
