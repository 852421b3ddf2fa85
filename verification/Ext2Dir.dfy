/**
 Directories: variable-length records, the two lookups and the listing.
 */
module Ext2Dir {
  import opened Bytes
  import opened CStrings

  /** A live directory entry: nonzero inode, nonempty name. */
  datatype DirEntry = DirEntry(inode: nat, fileType: nat, name: seq<byte>)

  const SLACK: nat := 263              // how far a record header and name can reach past an offset

  // ---------------------------------------------------------------- records in one block

  function RecLen(buf: seq<byte>, o: nat): nat requires o + SLACK <= |buf| { HalfAt(buf, o + 4) }

  /** The entries one record contributes: none if it is deleted or nameless. */
  function EntryAt(buf: seq<byte>, o: nat): (es: seq<DirEntry>)
    requires o + SLACK <= |buf|
    ensures |es| <= 1 && forall e :: e in es ==> e.inode != 0 && e.name != []
  {
    var inode, len := WordAt(buf, o), buf[o + 6] as nat;
    if inode != 0 && len > 0 then [DirEntry(inode, buf[o + 7], buf[o + 8..o + 8 + len])] else []
  }

  /**
   The live entries met by following record lengths from offset o.  `buf` is the static
   buffer together with the memory behind it, so that any block contents can be scanned.
   The recursion is well-founded because a zero length stops the scan.
   */
  function Records(buf: seq<byte>, size: nat, o: nat): (es: seq<DirEntry>)
    requires size + SLACK <= |buf|
    ensures forall e :: e in es ==> e.inode != 0 && e.name != []
    decreases if o < size then size - o else 0
  {
    if o >= size then []
    else if RecLen(buf, o) == 0 || RecLen(buf, o) > size then []
    else EntryAt(buf, o) + Records(buf, size, o + RecLen(buf, o))
  }

  /** Records that stay inside the block and are long enough for their names. */
  ghost predicate WellFormedFrom(block: seq<byte>, o: nat)
    decreases if o < |block| then |block| - o else 0
  {
    if o >= |block| then o == |block|
    else
      && o + 8 <= |block|
      && var len := HalfAt(block, o + 4);
         && 8 + block[o + 6] as nat <= len && o + len <= |block|
         && WellFormedFrom(block, o + len)
  }

  /** A well-formed block reads the same whatever lies behind the buffer. */
  lemma {:induction false} RecordsIgnoreTail(block: seq<byte>, t1: seq<byte>, t2: seq<byte>, o: nat)
    requires |t1| >= SLACK && |t2| >= SLACK && WellFormedFrom(block, o)
    ensures Records(block + t1, |block|, o) == Records(block + t2, |block|, o)
    decreases if o < |block| then |block| - o else 0
  {
    if o < |block| {
      var b1, b2 := block + t1, block + t2;
      assert forall i :: 0 <= i < |block| ==> b1[i] == block[i] && b2[i] == block[i];
      var len := HalfAt(block, o + 4);
      assert RecLen(b1, o) == len == RecLen(b2, o);
      var n := block[o + 6] as nat;
      assert b1[o + 8..o + 8 + n] == block[o + 8..o + 8 + n] == b2[o + 8..o + 8 + n];
      assert EntryAt(b1, o) == EntryAt(b2, o);
      RecordsIgnoreTail(block, t1, t2, o + len);
    }
  }

  // ---------------------------------------------------------------- matching a name

  /** ext2_lookup: first entry whose C string equals the name. */
  function LookupIn(es: seq<DirEntry>, name: seq<byte>): nat {
    if es == [] then 0 else if CStr(es[0].name) == name then es[0].inode else LookupIn(es[1..], name)
  }

  /** find_inode_in_dir: first entry whose bytes equal the name. */
  function FindIn(es: seq<DirEntry>, name: seq<byte>): nat {
    if es == [] then 0 else if es[0].name == name then es[0].inode else FindIn(es[1..], name)
  }

  ghost predicate Live(es: seq<DirEntry>) {
    forall e :: e in es ==> e.inode != 0 && e.name != []
  }

  lemma {:induction false} LookupAppend(a: seq<DirEntry>, b: seq<DirEntry>, name: seq<byte>)
    requires Live(a)
    ensures LookupIn(a + b, name) == if LookupIn(a, name) != 0 then LookupIn(a, name) else LookupIn(b, name)
  {
    if a == [] {
      assert a + b == b;
    } else {
      assert a[0] in a && (a + b)[1..] == a[1..] + b && (a + b)[0] == a[0];
      LookupAppend(a[1..], b, name);
    }
  }

  lemma {:induction false} FindAppend(a: seq<DirEntry>, b: seq<DirEntry>, name: seq<byte>)
    requires Live(a)
    ensures FindIn(a + b, name) == if FindIn(a, name) != 0 then FindIn(a, name) else FindIn(b, name)
  {
    if a == [] {
      assert a + b == b;
    } else {
      assert a[0] in a && (a + b)[1..] == a[1..] + b && (a + b)[0] == a[0];
      FindAppend(a[1..], b, name);
    }
  }

  /** For NUL-free entry names the two ways of matching find the same entry. */
  lemma {:induction false} LookupIsFind(es: seq<DirEntry>, name: seq<byte>)
    requires forall e :: e in es ==> NulFree(e.name)
    ensures LookupIn(es, name) == FindIn(es, name)
  {
    if es != [] {
      assert es[0] in es;
      CStrOfNulFree(es[0].name);
      LookupIsFind(es[1..], name);
    }
  }

  /** The name ext2_ls prints for each entry, with its directory marker. */
  function Listing(es: seq<DirEntry>): seq<(bool, seq<byte>)> {
    if es == [] then [] else [(es[0].fileType == 2, CStr(es[0].name))] + Listing(es[1..])
  }

  /** One line for each entry, in order: its name, marked as a directory exactly if its type is 2. */
  lemma {:induction false} ListingLines(es: seq<DirEntry>)
    ensures |Listing(es)| == |es|
    ensures forall i :: 0 <= i < |es| ==>
              Listing(es)[i].1 == CStr(es[i].name) && (Listing(es)[i].0 <==> es[i].fileType == 2)
  {
    if es != [] {
      ListingLines(es[1..]);
      assert forall i :: 0 < i < |es| ==> es[i] == es[1..][i - 1] && Listing(es)[i] == Listing(es[1..])[i - 1];
    }
  }

  lemma {:induction false} ListingAppend(a: seq<DirEntry>, b: seq<DirEntry>)
    ensures Listing(a + b) == Listing(a) + Listing(b)
  {
    if a == [] {
      assert a + b == b;
    } else {
      assert (a + b)[1..] == a[1..] + b && (a + b)[0] == a[0];
      ListingAppend(a[1..], b);
      assert Listing(a + b) == [(a[0].fileType == 2, CStr(a[0].name))] + (Listing(a[1..]) + Listing(b));
    }
  }

  ghost predicate Listed(out: seq<(bool, seq<byte>)>, name: seq<byte>) {
    exists i :: 0 <= i < |out| && out[i].1 == name
  }

  /** A name can be looked up exactly when the listing shows it. */
  lemma {:induction false} LookupIffListed(es: seq<DirEntry>, name: seq<byte>)
    requires Live(es)
    ensures LookupIn(es, name) != 0 <==> Listed(Listing(es), name)
  {
    if es != [] {
      assert es[0] in es;
      var rest := Listing(es[1..]);
      var out := Listing(es);
      assert out[0].1 == CStr(es[0].name) && out[1..] == rest;
      LookupIffListed(es[1..], name);
      if Listed(rest, name) {
        var i :| 0 <= i < |rest| && rest[i].1 == name;
        assert out[i + 1].1 == name;
      }
      if Listed(out, name) && CStr(es[0].name) != name {
        var i :| 0 <= i < |out| && out[i].1 == name;
        assert rest[i - 1].1 == name;
      }
    }
  }
}
