/**
 Directory blocks as ext2 lays them out, and the proof that the scan reads them back.
 */
module Ext2Encode {
  import opened Words
  import opened Bytes
  import opened Ext2Dir

  /** A record to be written: `pad` bytes follow the name. */
  datatype Raw = Raw(inode: nat, fileType: byte, name: seq<byte>, pad: nat) {
    function Length(): nat { 8 + |name| + pad }
  }

  predicate Encodable(r: Raw, size: nat) {
    r.inode < WORD_LIMIT && |r.name| < 256 && r.Length() <= size <= 4096
  }

  function Encode(r: Raw): (bytes: seq<byte>)
    requires Encodable(r, 4096)
    ensures |bytes| == r.Length()
  {
    Le32(r.inode) + Le16(r.Length()) + [|r.name|, r.fileType] + r.name + Zeros(r.pad)
  }

  ghost predicate AllEncodable(rs: seq<Raw>, size: nat) { forall r :: r in rs ==> Encodable(r, size) }

  function EncodeAll(rs: seq<Raw>): seq<byte>
    requires forall r :: r in rs ==> Encodable(r, 4096)
  {
    if rs == [] then [] else Encode(rs[0]) + EncodeAll(rs[1..])
  }

  /** The entries that are neither deleted nor nameless. */
  function LiveOnes(rs: seq<Raw>): seq<DirEntry> {
    if rs == [] then []
    else (if rs[0].inode != 0 && rs[0].name != [] then [DirEntry(rs[0].inode, rs[0].fileType, rs[0].name)] else []) +
         LiveOnes(rs[1..])
  }

  lemma EncodeBytes(r: Raw)
    requires Encodable(r, 4096)
    ensures var e := Encode(r);
            && e[0] == r.inode % 256 && e[1] == r.inode / 256 % 256 && e[2] == r.inode / 65536 % 256
            && e[3] == r.inode / 16777216 && e[4] == r.Length() % 256 && e[5] == r.Length() / 256
            && e[6] == |r.name| && e[7] == r.fileType && e[8..8 + |r.name|] == r.name
  {
  }

  /** The fields of an encoded record, wherever it stands in the buffer. */
  lemma EncodedFields(buf: seq<byte>, o: nat, r: Raw)
    requires Encodable(r, 4096) && o + SLACK <= |buf| && o + r.Length() <= |buf|
    requires buf[o..o + r.Length()] == Encode(r)
    ensures WordAt(buf, o) == r.inode && RecLen(buf, o) == r.Length()
    ensures buf[o + 6] == |r.name| && buf[o + 7] == r.fileType && buf[o + 8..o + 8 + |r.name|] == r.name
  {
    hide Encode;
    var e := Encode(r);
    EncodeBytes(r);
    Digits(r.inode);
    assert r.Length() == r.Length() % 256 + 256 * (r.Length() / 256);
    assert forall i :: 0 <= i < |e| ==> e[i] == buf[o + i];
    assert buf[o + 8..o + 8 + |r.name|] == buf[o..o + |e|][8..8 + |r.name|];
  }

  lemma RecordStep(buf: seq<byte>, size: nat, o: nat, r: Raw)
    requires Encodable(r, size) && size + SLACK <= |buf| && o < size && o + r.Length() <= |buf|
    requires buf[o..o + r.Length()] == Encode(r)
    ensures Records(buf, size, o) ==
            (if r.inode != 0 && r.name != [] then [DirEntry(r.inode, r.fileType, r.name)] else []) +
            Records(buf, size, o + r.Length())
  {
    hide WordAt, HalfAt, Encode;
    EncodedFields(buf, o, r);
  }

  lemma SliceParts(buf: seq<byte>, o: nat, n: nat, size: nat, a: seq<byte>, b: seq<byte>)
    requires o + n <= size <= |buf| && |a| == n && buf[o..size] == a + b
    ensures buf[o..o + n] == a && buf[o + n..size] == b
  {
    assert buf[o..o + n] == buf[o..size][..n];
    assert buf[o + n..size] == buf[o..size][n..];
  }

  lemma {:induction false} ScanReadsBack(buf: seq<byte>, size: nat, o: nat, rs: seq<Raw>)
    requires size + SLACK <= |buf| && size <= 4096 && AllEncodable(rs, size)
    requires o + |EncodeAll(rs)| == size && buf[o..size] == EncodeAll(rs)
    ensures Records(buf, size, o) == LiveOnes(rs)
    decreases |rs|
  {
    hide Encode, Records;
    if rs == [] {
      NothingLeft(buf, size, o);
    } else {
      var r, rest := rs[0], rs[1..];
      assert r in rs && forall x :: x in rest ==> x in rs;
      SliceParts(buf, o, r.Length(), size, Encode(r), EncodeAll(rest));
      RecordStep(buf, size, o, r);
      ScanReadsBack(buf, size, o + r.Length(), rest);
    }
  }

  lemma NothingLeft(buf: seq<byte>, size: nat, o: nat)
    requires size + SLACK <= |buf| && o >= size
    ensures Records(buf, size, o) == []
  {
  }

  /** Writing records and scanning the block gives back the live ones, in order. */
  lemma RecordsRoundTrip(rs: seq<Raw>, size: nat, tail: seq<byte>)
    requires size <= 4096 && AllEncodable(rs, size) && |EncodeAll(rs)| == size && |tail| >= SLACK
    ensures Records(EncodeAll(rs) + tail, size, 0) == LiveOnes(rs)
  {
    var buf := EncodeAll(rs) + tail;
    assert buf[0..size] == EncodeAll(rs);
    ScanReadsBack(buf, size, 0, rs);
  }
}
