/**
 resolve_path over the file system.
 */
module PathResolve {
  import opened Bytes
  import opened CStrings
  import opened HeapLayout
  import opened KernelHeap
  import opened Ext2Fs
  import opened Ext2Dir
  import opened Ext2Scan
  import opened PathText

  /** What stays fixed while paths are resolved: the disk, the buffers' surroundings, the heap's answer. */
  datatype World = World(fs: Fs, lookupTail: seq<byte>, findTail: seq<byte>, canAlloc: bool)

  /** Inode n can be scanned. */
  ghost predicate SoundInode(w: World, n: nat) {
    |w.lookupTail| >= SLACK && |w.findTail| >= SLACK && Scannable(w.fs, n)
  }

  /** The entries found in inode n name members of `live`. */
  ghost predicate LeadsInto(w: World, n: nat, live: set<nat>)
    requires SoundInode(w, n)
  {
    && (forall e :: e in DirEntries(w.fs, n, w.findTail, w.canAlloc) ==> e.inode in live)
    && (forall e :: e in DirEntries(w.fs, n, w.lookupTail, w.canAlloc) ==> e.inode in live)
  }

  /**
   `live` holds the root and whatever directory entries lead to from there, and each of its
   members can be scanned.  Nothing is asked of inodes outside, such as deleted ones.
   */
  ghost predicate SoundWorld(w: World, live: set<nat>) {
    && ROOT in live
    && (forall n :: n in live ==> SoundInode(w, n) && LeadsInto(w, n, live))
  }

  /** The heap from which the indirect buffers come gives the answer w says it gives. */
  ghost predicate HeapAnswers(w: World, heap: Heap)
    reads heap, heap.mem
  {
    heap.Valid() && w.canAlloc == CanBuffer(heap.blocks, w.fs.blockSize)
  }

  /** find_inode_in_dir in world w. */
  ghost function Find(w: World, dir: nat, name: Name): nat {
    if SoundInode(w, dir) then FindIn(DirEntries(w.fs, dir, w.findTail, w.canAlloc), name) else 0
  }

  /** ext2_lookup in world w. */
  ghost function Lookup(w: World, dir: nat, name: Name): nat {
    if SoundInode(w, dir) then LookupIn(DirEntries(w.fs, dir, w.lookupTail, w.canAlloc), name) else 0
  }

  ghost function Finder(w: World): (nat, Name) -> nat {
    (dir: nat, name: Name) => Find(w, dir, name)
  }

  /** What is found from a live inode is live. */
  lemma FoundIsLive(w: World, live: set<nat>, dir: nat, name: Name)
    requires SoundWorld(w, live) && dir in live
    ensures SoundInode(w, dir)
    ensures Find(w, dir, name) != 0 ==> Find(w, dir, name) in live
    ensures Lookup(w, dir, name) != 0 ==> Lookup(w, dir, name) in live
  {
    FoundAmong(DirEntries(w.fs, dir, w.findTail, w.canAlloc), name, live);
    FoundAmong(DirEntries(w.fs, dir, w.lookupTail, w.canAlloc), name, live);
  }

  lemma {:induction false} FoundAmong(es: seq<DirEntry>, name: Name, live: set<nat>)
    requires forall e :: e in es ==> e.inode in live
    ensures FindIn(es, name) != 0 ==> FindIn(es, name) in live
    ensures LookupIn(es, name) != 0 ==> LookupIn(es, name) in live
  {
    if es != [] {
      assert es[0] in es;
      FoundAmong(es[1..], name, live);
    }
  }

  /** A walk from a live inode ends at a live inode or nowhere. */
  lemma {:induction false} WalkIsLive(w: World, live: set<nat>, from: nat, names: seq<Name>)
    requires SoundWorld(w, live) && (from == 0 || from in live)
    ensures Walk(Finder(w), from, names) == 0 || Walk(Finder(w), from, names) in live
    decreases |names|
  {
    hide SoundWorld, Find, Lookup;
    if names != [] && from != 0 {
      FoundIsLive(w, live, from, names[0]);
      assert Finder(w)(from, names[0]) == Find(w, from, names[0]);
      WalkIsLive(w, live, Find(w, from, names[0]), names[1..]);
    }
  }

  lemma SpanStep(path: seq<byte>, i: nat)
    requires i <= |path| && i <= NAME_MAX
    ensures Span(path, i) == if i < |path| && path[i] != SLASH && i < NAME_MAX then Span(path, i + 1) else i
  {
  }

  /** One turn of the inner loop: copy a name into the 32-byte buffer, then step over a slash. */
  method NextName(path: seq<byte>, at: nat) returns (name: Name, next: nat)
    requires at < |path| && NulFree(path)
    ensures at < next <= |path| && NulFree(name)
    ensures name == path[at..][..Span(path[at..], 0)]
    ensures path[next..] == AfterName(path[at..], Span(path[at..], 0))
  {
    hide Span;
    var buffer := new byte[32](_ => 0);
    var i := 0;
    next := at;
    ghost var rest := path[at..];
    while next < |path| && path[next] != SLASH && i < NAME_MAX
      invariant 0 <= i <= NAME_MAX && next == at + i <= |path|
      invariant buffer[..i] == rest[..i] && Span(rest, 0) == Span(rest, i)
    {
      SpanStep(rest, i);
      buffer[i] := path[next];
      i := i + 1;
      next := next + 1;
    }
    SpanStep(rest, i);
    name := buffer[..i];
    if next < |path| && path[next] == SLASH {
      next := next + 1;
    }
  }

  method ResolvePath(w: World, path: seq<byte>, heap: Heap, ghost live: set<nat>) returns (inode: nat)
    requires SoundWorld(w, live) && HeapAnswers(w, heap) && NulFree(path)
    modifies heap, heap.mem
    ensures inode == Resolve(Finder(w), path)
    ensures HeapKept(heap, old(heap.blocks), old(heap.mem[..]))
  {
    HeapUntouched(heap);
    if path == [] {
      return 0;
    }
    var c := Strcmp(path, [SLASH]);
    CStrOfNulFree(path);
    CStrOfNulFree([SLASH]);
    if c == 0 {
      assert Strip(path) == [];
      NoTokens();
      return ROOT;
    }
    var at := if path[0] == SLASH then 1 else 0;
    inode := WalkPath(w, path, at, heap, live);
  }

  /** The outer loop of resolve_path from position `start`. */
  method WalkPath(w: World, path: seq<byte>, start: nat, heap: Heap, ghost live: set<nat>) returns (inode: nat)
    requires SoundWorld(w, live) && HeapAnswers(w, heap) && NulFree(path) && start <= |path|
    modifies heap, heap.mem
    ensures inode == Walk(Finder(w), ROOT, Tokens(path[start..]))
    ensures HeapKept(heap, old(heap.blocks), old(heap.mem[..]))
  {
    hide Tokens, AfterName, Span, Walk, SoundInode, Find, LeadsInto, HeapKept, CanBuffer;
    WalkNothing(Finder(w));
    HeapUntouched(heap);
    assert ROOT in live;
    inode := ROOT;
    var at := start;
    while at < |path|
      invariant start <= at <= |path| && inode in live && inode != 0
      invariant HeapKept(heap, old(heap.blocks), old(heap.mem[..]))
      invariant Walk(Finder(w), ROOT, Tokens(path[start..])) == Walk(Finder(w), inode, Tokens(path[at..]))
      decreases |path| - at
    {
      var name, next := NextName(path, at);
      TokensUnfold(path[at..]);
      var found := FindChecked(w, inode, name, heap, live, old(heap.blocks), old(heap.mem[..]));
      WalkStep(Finder(w), inode, name, Tokens(path[next..]));
      inode := found;
      at := next;
      if inode == 0 {
        return;
      }
    }
    assert path[at..] == [];
  }

  lemma WalkNothing(find: (nat, Name) -> nat)
    ensures forall from: nat :: Walk(find, from, Tokens([])) == from
  {
  }

  lemma WalkStep(find: (nat, Name) -> nat, from: nat, name: Name, rest: seq<Name>)
    requires from != 0
    ensures Walk(find, from, [name] + rest) == Walk(find, find(from, name), rest)
    ensures Walk(find, 0, rest) == 0
  {
    assert ([name] + rest)[1..] == rest;
  }

  /** One lookup of the walk; L and m are the heap's layout and bytes when the walk began. */
  method FindChecked(w: World, dir: nat, name: Name, heap: Heap, ghost live: set<nat>, ghost L: Layout,
                     ghost m: seq<byte>)
    returns (r: nat)
    requires SoundWorld(w, live) && dir in live && NulFree(name)
    requires HeapKept(heap, L, m) && w.canAlloc == CanBuffer(L, w.fs.blockSize)
    modifies heap, heap.mem
    ensures r == Find(w, dir, name) == Finder(w)(dir, name) && (r != 0 ==> r in live)
    ensures HeapKept(heap, L, m)
  {
    hide LeadsInto, CanBuffer, WellFormed;
    FoundIsLive(w, live, dir, name);
    ghost var m1 := heap.mem[..];
    r := FindInodeInDir(w.fs, dir, name, w.findTail, heap);
    HeapKeptThen(heap, L, m, m1);
  }
}
