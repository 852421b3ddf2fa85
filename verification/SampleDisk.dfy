/**
 A disk with two directories, "/" and "/bin", written byte by byte.  It shows that the tree
 the current-directory results ask for exists, and that blocks written record by record are
 well formed.
 */
module SampleDisk {
  import opened Bytes
  import opened CStrings
  import opened Ext2Fs
  import opened Ext2Dir
  import opened Ext2Encode
  import opened Ext2Scan
  import opened PathText
  import opened PathResolve
  import opened Cwd

  // ---------------------------------------------------------------- written blocks are well formed

  /** A block written record by record is one the scans accept. */
  lemma {:induction false} WrittenIsWellFormed(block: seq<byte>, o: nat, rs: seq<Raw>)
    requires |block| <= 4096 && AllEncodable(rs, |block|)
    requires o + |EncodeAll(rs)| == |block| && block[o..] == EncodeAll(rs)
    ensures WellFormedFrom(block, o)
    decreases |rs|
  {
    hide Encode;
    if rs != [] {
      var r, rest := rs[0], rs[1..];
      assert r in rs && forall x :: x in rest ==> x in rs;
      SliceParts(block, o, r.Length(), |block|, Encode(r), EncodeAll(rest));
      HeaderRead(block, o, r);
      WrittenIsWellFormed(block, o + r.Length(), rest);
    }
  }

  lemma HeaderRead(block: seq<byte>, o: nat, r: Raw)
    requires Encodable(r, 4096) && o + r.Length() <= |block| && block[o..o + r.Length()] == Encode(r)
    ensures HalfAt(block, o + 4) == r.Length() && block[o + 6] == |r.name|
  {
    hide Encode;
    var e := Encode(r);
    EncodeBytes(r);
    assert r.Length() == r.Length() % 256 + 256 * (r.Length() / 256);
    assert forall i :: 0 <= i < |e| ==> e[i] == block[o + i];
  }

  /** Every directory whose only block was written from `rs` lists the live ones among them. */
  lemma WrittenDirectory(fs: Fs, n: nat, rs: seq<Raw>, tail: seq<byte>, canAlloc: bool)
    requires Scannable(fs, n) && |tail| >= SLACK
    requires var ino := InodeAt(fs, n); IsDir(ino) && ino.size == fs.blockSize && ino.blocks[0] != 0
    requires AllEncodable(rs, fs.blockSize) && |EncodeAll(rs)| == fs.blockSize
    requires DiskBlock(fs, InodeAt(fs, n).blocks[0]) == EncodeAll(rs)
    ensures DirEntries(fs, n, tail, canAlloc) == LiveOnes(rs)
  {
    hide InodeAt, Records, EncodeAll, LiveOnes;
    var ino := InodeAt(fs, n);
    RecordsRoundTrip(rs, fs.blockSize, tail);
    assert BlockCount(fs, ino) == 1;
    assert EntriesFrom(fs, ino, tail, canAlloc, 1) == [];
  }

  lemma WrittenDirectoryIsWellFormed(fs: Fs, n: nat, rs: seq<Raw>)
    requires Scannable(fs, n)
    requires var ino := InodeAt(fs, n); IsDir(ino) && ino.size == fs.blockSize && ino.blocks[0] != 0
    requires AllEncodable(rs, fs.blockSize) && |EncodeAll(rs)| == fs.blockSize
    requires DiskBlock(fs, InodeAt(fs, n).blocks[0]) == EncodeAll(rs)
    requires forall e :: e in LiveOnes(rs) ==> NulFree(e.name)
    ensures WellFormedDir(fs, n)
  {
    hide InodeAt, Records, EncodeAll, LiveOnes, WellFormedFrom;
    var ino := InodeAt(fs, n);
    var id := ino.blocks[0];
    assert BlockCount(fs, ino) == 1;
    assert DiskBlock(fs, id)[0..] == EncodeAll(rs);
    WrittenIsWellFormed(DiskBlock(fs, id), 0, rs);
    forall tail | |tail| >= SLACK ensures Records(DiskBlock(fs, id) + tail, fs.blockSize, 0) == LiveOnes(rs) {
      RecordsRoundTrip(rs, fs.blockSize, tail);
    }
    assert WellFormedBlock(fs, id);
  }

  // ---------------------------------------------------------------- the disk

  const SIZE: nat := 1024
  const BIN: nat := 3
  const NAME: Name := [98, 105, 110]   // "bin"

  const ROOT_RECORDS: seq<Raw> := [Raw(ROOT, 2, DOT, 3), Raw(ROOT, 2, DOT_DOT, 2), Raw(BIN, 2, NAME, 989)]
  const BIN_RECORDS: seq<Raw> := [Raw(BIN, 2, DOT, 3), Raw(ROOT, 2, DOT_DOT, 1002)]

  lemma WrittenLength(r: Raw, rest: seq<Raw>)
    requires Encodable(r, 4096) && AllEncodable(rest, 4096)
    ensures |EncodeAll([r] + rest)| == r.Length() + |EncodeAll(rest)|
  {
    var rs := [r] + rest;
    assert rs[0] == r && rs[1..] == rest;
  }

  lemma RootWritten()
    ensures AllEncodable(ROOT_RECORDS, SIZE) && |EncodeAll(ROOT_RECORDS)| == SIZE
  {
    hide Encode;
    var rs := ROOT_RECORDS;
    assert rs == [rs[0]] + ([rs[1]] + ([rs[2]] + []));
    WrittenLength(rs[2], []);
    WrittenLength(rs[1], [rs[2]] + []);
    WrittenLength(rs[0], [rs[1]] + ([rs[2]] + []));
  }

  lemma BinWritten()
    ensures AllEncodable(BIN_RECORDS, SIZE) && |EncodeAll(BIN_RECORDS)| == SIZE
  {
    hide Encode;
    var rs := BIN_RECORDS;
    assert rs == [rs[0]] + ([rs[1]] + []);
    WrittenLength(rs[1], []);
    WrittenLength(rs[0], [rs[1]] + []);
  }

  /** The block of the inode table: inodes 2 and 3 are directories of one block each. */
  function TableByte(i: nat): byte {
    if i == 129 || i == 257 then 0x40
    else if i == 133 || i == 261 then 4
    else if i == 168 then 6
    else if i == 296 then 7
    else 0
  }

  ghost function SampleBlock(b: nat): (r: seq<byte>)
    ensures |r| == SIZE
  {
    RootWritten();
    BinWritten();
    if b == 5 then seq<byte>(SIZE, i requires i >= 0 => TableByte(i))
    else if b == 6 then EncodeAll(ROOT_RECORDS)
    else if b == 7 then EncodeAll(BIN_RECORDS)
    else Zeros(SIZE)
  }

  ghost function Sample(): Fs {
    Fs(SIZE, 3, 5, map b: nat | 0 <= b <= MAX_BLOCK :: SampleBlock(b))
  }

  ghost function SampleWorld(): World {
    World(Sample(), Zeros(SLACK), Zeros(SLACK), true)
  }

  lemma SampleMounted()
    ensures Mounted(Sample())
  {
  }

  lemma TableRead(i: nat)
    requires i < SIZE
    ensures SampleBlock(5)[i] == TableByte(i)
  {
  }

  lemma SampleBytes(n: nat)
    requires 1 <= n <= 3
    ensures Mounted(Sample())
    ensures forall i :: 0 <= i < 128 ==> InodeBytes(Sample(), n)[i] == TableByte(128 * (n - 1) + i)
  {
    hide InodeBytes, TableByte;
    SampleMounted();
    var fs := Sample();
    InodeSlice(fs, n);
    assert InodeBlock(fs, n) == 0 && InodeOffset(fs, n) == 128 * (n - 1);
    assert DiskBlock(fs, 5) == SampleBlock(5);
    forall i | 0 <= i < SIZE ensures SampleBlock(5)[i] == TableByte(i) { TableRead(i); }
  }

  /** Inode n, read from the bytes of the table. */
  lemma SampleInode(n: nat)
    requires 1 <= n <= 3
    ensures Mounted(Sample())
    ensures var ino := InodeAt(Sample(), n);
            && ino.mode == (if n == 1 then 0 else 0x4000)
            && ino.size == (if n == 1 then 0 else SIZE)
            && ino.blocks[0] == (if n == 1 then 0 else n + 4)
            && forall i :: 1 <= i < 15 ==> ino.blocks[i] == 0
  {
    hide InodeBytes, Sample, Mounted;
    SampleBytes(n);
  }

  lemma SampleScannable(n: nat)
    requires 1 <= n <= 3
    ensures Scannable(Sample(), n)
  {
    hide InodeAt;
    SampleInode(n);
  }

  function RecordsOf(n: nat): seq<Raw> { if n == ROOT then ROOT_RECORDS else BIN_RECORDS }

  lemma SampleEntries(n: nat, tail: seq<byte>)
    requires 1 <= n <= 3 && |tail| >= SLACK
    ensures Scannable(Sample(), n)
    ensures IsDir(InodeAt(Sample(), n)) <==> n != 1
    ensures DirEntries(Sample(), n, tail, true) == if n == 1 then [] else LiveOnes(RecordsOf(n))
    ensures n != 1 ==> WellFormedDir(Sample(), n)
  {
    hide InodeAt, EncodeAll, LiveOnes, EntriesFrom, WellFormedDir, Mounted;
    SampleScannable(n);
    SampleInode(n);
    if n != 1 {
      RootWritten();
      BinWritten();
      SampleNames(n);
      assert DiskBlock(Sample(), n + 4) == SampleBlock(n + 4) == EncodeAll(RecordsOf(n));
      WrittenDirectory(Sample(), n, RecordsOf(n), tail, true);
      WrittenDirectoryIsWellFormed(Sample(), n, RecordsOf(n));
    }
  }

  /** The entries of both directories, and what looking a name up in them gives. */
  lemma SampleNames(n: nat)
    requires 2 <= n <= 3
    ensures LiveOnes(RecordsOf(n)) ==
            [DirEntry(n, 2, DOT), DirEntry(ROOT, 2, DOT_DOT)] + if n == ROOT then [DirEntry(BIN, 2, NAME)] else []
    ensures forall e :: e in LiveOnes(RecordsOf(n)) ==> e.inode in LIVE && Component(e.name) && NulFree(e.name)
  {
    hide LiveOnes;
    var rs := RecordsOf(n);
    var bin := if n == ROOT then [rs[2]] else [];
    assert rs == [rs[0]] + ([rs[1]] + bin);
    LiveStep(rs[0], [rs[1]] + bin);
    LiveStep(rs[1], bin);
    if n == ROOT {
      assert bin == [rs[2]] + [];
      LiveStep(rs[2], []);
    }
  }

  lemma LiveStep(r: Raw, rest: seq<Raw>)
    requires r.inode != 0 && r.name != []
    ensures LiveOnes([r] + rest) == [DirEntry(r.inode, r.fileType, r.name)] + LiveOnes(rest)
    ensures LiveOnes([]) == []
  {
    assert ([r] + rest)[1..] == rest;
  }

  const LIVE: set<nat> := {ROOT, BIN}

  lemma SampleSound(n: nat)
    ensures SoundInode(SampleWorld(), n) <==> 1 <= n <= 3
    ensures 2 <= n <= 3 ==> LeadsInto(SampleWorld(), n, LIVE)
  {
    hide InodeAt, EntriesFrom, LiveOnes, Scannable, DirEntries;
    if 1 <= n <= 3 {
      SampleEntries(n, Zeros(SLACK));
      if n != 1 { SampleNames(n); }
    } else {
      OutOfTable(n);
    }
  }

  lemma OutOfTable(n: nat)
    requires n == 0 || n > 3
    ensures !Scannable(Sample(), n)
  {
  }

  lemma SampleLookup(n: nat, name: Name)
    requires 2 <= n <= 3
    ensures Lookup(SampleWorld(), n, name) ==
            if name == DOT then n else if name == DOT_DOT then ROOT else if n == ROOT && name == NAME then BIN else 0
  {
    hide InodeAt, EntriesFrom, LiveOnes, LookupIn, Scannable, DirEntries, SoundInode;
    SampleSound(n);
    SampleEntries(n, Zeros(SLACK));
    SampleNames(n);
    var es := LiveOnes(RecordsOf(n));
    var bin := if n == ROOT then [es[2]] else [];
    assert es == [es[0]] + ([es[1]] + bin);
    MatchStep(es[0], [es[1]] + bin, name);
    MatchStep(es[1], bin, name);
    if n == ROOT {
      assert bin == [es[2]] + [];
      MatchStep(es[2], [], name);
    }
  }

  lemma MatchStep(e: DirEntry, rest: seq<DirEntry>, name: Name)
    requires NulFree(e.name)
    ensures LookupIn([e] + rest, name) == if e.name == name then e.inode else LookupIn(rest, name)
    ensures LookupIn([], name) == 0
  {
    CStrOfNulFree(e.name);
    assert ([e] + rest)[1..] == rest;
  }

  lemma SampleDirectory(n: nat)
    ensures Directory(SampleWorld(), n) <==> 2 <= n <= 3
  {
    hide InodeAt, SoundInode;
    SampleSound(n);
    if 1 <= n <= 3 { SampleEntries(n, Zeros(SLACK)); }
  }

  lemma SampleNode(n: nat)
    requires 2 <= n <= 3
    ensures Directory(SampleWorld(), n) && TreeNode(SampleWorld(), n)
  {
    hide InodeAt, SoundInode, DirEntries, WellFormedDir, Lookup, LiveOnes;
    SampleDirectory(n);
    SampleEntries(n, Zeros(SLACK));
    SampleNames(n);
    SampleLookup(n, DOT);
  }

  /** The sample disk is a tree with a directory below the root. */
  lemma SampleIsTree()
    ensures Tree(SampleWorld(), LIVE) && IsChild(SampleWorld(), ROOT, NAME)
  {
    hide Directory, SoundInode, Lookup, TreeNode, LeadsInto;
    var w := SampleWorld();
    forall n | n in LIVE ensures SoundInode(w, n) && LeadsInto(w, n, LIVE) && Directory(w, n) && TreeNode(w, n) {
      SampleSound(n);
      SampleNode(n);
    }
    SampleLookup(ROOT, DOT_DOT);
    SampleLookup(ROOT, NAME);
    SampleDirectory(BIN);
    forall d, name | d in LIVE && IsChild(w, d, name) ensures Lookup(w, Lookup(w, d, name), DOT_DOT) == d {
      SampleLookup(d, name);
      SampleDirectory(0);
      SampleLookup(BIN, DOT_DOT);
    }
  }

  /** cd bin, then cd ..: the current directory visits "/bin" and comes home. */
  lemma SampleVisit()
    ensures Run(SampleWorld(), START, [NAME]) == State([NAME], BIN)
    ensures Run(SampleWorld(), START, [NAME, DOT_DOT]) == START
    ensures Resolve(Finder(SampleWorld()), Absolute([NAME])) == BIN
  {
    hide Tree, IsChild, SampleWorld, Step, Agrees, Resolve, Normalised, Absolute, Run;
    var w := SampleWorld();
    SampleIsTree();
    StartAgrees(w, LIVE);
    SampleStep();
    ThereAndBack(w, LIVE, START, NAME);
    assert [NAME] + [] == [NAME] && [NAME] + [DOT_DOT] == [NAME, DOT_DOT] && [DOT_DOT] + [] == [DOT_DOT];
    RunOne(w, START, NAME, []);
    RunOne(w, START, NAME, [DOT_DOT]);
    RunOne(w, Step(w, START, NAME), DOT_DOT, []);
    RunAgrees(w, LIVE, START, [NAME]);
  }

  lemma RunOne(w: World, s: State, name: Name, rest: seq<Name>)
    ensures Run(w, s, [name] + rest) == Run(w, Step(w, s, name), rest)
    ensures Run(w, s, []) == s
  {
    hide Step;
    assert ([name] + rest)[1..] == rest;
  }

  lemma SampleStep()
    ensures Step(SampleWorld(), START, NAME) == State([NAME], BIN)
  {
    hide Lookup, Directory, SampleWorld;
    SampleLookup(ROOT, NAME);
    SampleDirectory(BIN);
    assert [] + [NAME] == [NAME];
  }
}
