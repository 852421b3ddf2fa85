/**
 The shell's current directory: a path string and an inode that must agree.
 */
module Cwd {
  import opened Bytes
  import opened CStrings
  import opened KernelHeap
  import opened Ext2Fs
  import opened Ext2Dir
  import opened Ext2Scan
  import opened PathText
  import opened PathResolve

  const DOT: Name := [46]
  const DOT_DOT: Name := [46, 46]

  ghost predicate Directory(w: World, n: nat) {
    SoundInode(w, n) && IsDir(InodeAt(w.fs, n))
  }

  /** Directory d: well-formed blocks, subdirectory names resolve_path can take, "." is d itself. */
  ghost predicate TreeNode(w: World, d: nat)
    requires Directory(w, d)
  {
    && WellFormedDir(w.fs, d)
    && (forall e :: e in DirEntries(w.fs, d, w.lookupTail, w.canAlloc) && Directory(w, e.inode) ==> Component(e.name))
    && Lookup(w, d, DOT) == d
  }

  /** ".." of a child directory is the directory it was entered from, and the root is its own parent. */
  ghost predicate Tree(w: World, live: set<nat>) {
    && SoundWorld(w, live) && Directory(w, ROOT) && Lookup(w, ROOT, DOT_DOT) == ROOT
    && (forall d :: d in live && Directory(w, d) ==> TreeNode(w, d))
    && (forall d, name | d in live && Directory(w, d) && IsChild(w, d, name) ::
          Lookup(w, Lookup(w, d, name), DOT_DOT) == d)
  }

  /** `name` leads from d down to a directory. */
  ghost predicate IsChild(w: World, d: nat, name: Name) {
    name != DOT && name != DOT_DOT && Directory(w, Lookup(w, d, name))
  }

  lemma LookupIsFindHere(w: World, live: set<nat>, d: nat, name: Name)
    requires Tree(w, live) && d in live && Directory(w, d)
    ensures Lookup(w, d, name) == Find(w, d, name)
  {
    assert TreeNode(w, d);
    LookupsAgree(w.fs, d, name, w.lookupTail, w.findTail, w.findTail, w.canAlloc);
  }

  /** The entry a lookup finds. */
  lemma {:induction false} LookupEntry(es: seq<DirEntry>, name: Name) returns (e: DirEntry)
    requires LookupIn(es, name) != 0
    ensures e in es && CStr(e.name) == name && e.inode == LookupIn(es, name)
  {
    if CStr(es[0].name) == name {
      e := es[0];
    } else {
      e := LookupEntry(es[1..], name);
    }
  }

  lemma ChildIsComponent(w: World, live: set<nat>, d: nat, name: Name)
    requires Tree(w, live) && d in live && Directory(w, d) && Directory(w, Lookup(w, d, name))
    ensures Component(name)
  {
    assert TreeNode(w, d);
    var e := LookupEntry(DirEntries(w.fs, d, w.lookupTail, w.canAlloc), name);
    CStrOfNulFree(e.name);
  }

  // ---------------------------------------------------------------- ext2_cd as a step

  /** The names of the current path and the current inode. */
  datatype State = State(names: seq<Name>, inode: nat)

  function Parent(names: seq<Name>): seq<Name> { if names == [] then [] else names[..|names| - 1] }

  ghost function Step(w: World, s: State, name: Name): State {
    var target := Lookup(w, s.inode, name);
    if name == [] || target == 0 || !Directory(w, target) then s
    else if name == DOT then State(s.names, target)
    else if name == DOT_DOT then State(Parent(s.names), target)
    else State(s.names + [name], target)
  }

  /** The current path consists of proper names and leads from the root to the current inode. */
  ghost predicate Agrees(w: World, live: set<nat>, s: State) {
    && Components(s.names) && DOT !in s.names && DOT_DOT !in s.names
    && s.inode in live && Directory(w, s.inode) && Walk(Finder(w), ROOT, s.names) == s.inode
  }

  /** The last name of the path was looked up in the directory its other names lead to. */
  lemma LastStep(w: World, live: set<nat>, s: State)
    requires Tree(w, live) && Agrees(w, live, s) && s.names != []
    ensures var d := Walk(Finder(w), ROOT, Parent(s.names));
            var last := s.names[|s.names| - 1];
            && d in live && Directory(w, d) && Lookup(w, d, last) == s.inode && IsChild(w, d, last)
            && Lookup(w, s.inode, DOT_DOT) == d
  {
    hide Tree, Directory, Walk, Find, Lookup;
    var init, last := Parent(s.names), s.names[|s.names| - 1];
    var d := Walk(Finder(w), ROOT, init);
    assert s.names == init + [last] && last in s.names;
    WalkAppend(Finder(w), ROOT, init, [last]);
    ZeroIsNoDirectory(w);
    OneStep(Finder(w), d, last);
    assert Find(w, d, last) == s.inode;
    FoundInDirectory(w, d, last);
    LiveWalk(w, live, init);
    LookupIsFindHere(w, live, d, last);
    ChildKnowsParent(w, live, d, last);
  }

  lemma ChildKnowsParent(w: World, live: set<nat>, d: nat, name: Name)
    requires Tree(w, live) && d in live && Directory(w, d) && IsChild(w, d, name)
    ensures Lookup(w, Lookup(w, d, name), DOT_DOT) == d
  {
  }

  lemma LiveWalk(w: World, live: set<nat>, names: seq<Name>)
    requires Tree(w, live)
    ensures Walk(Finder(w), ROOT, names) == 0 || Walk(Finder(w), ROOT, names) in live
  {
    WalkIsLive(w, live, ROOT, names);
  }

  lemma OneStep(find: (nat, Name) -> nat, from: nat, name: Name)
    ensures Walk(find, from, [name]) == if from == 0 then 0 else find(from, name)
  {
    if from != 0 {
      assert [name][1..] == [];
      assert Walk(find, find(from, name), []) == find(from, name);
    }
  }

  lemma FoundInDirectory(w: World, d: nat, name: Name)
    requires Find(w, d, name) != 0
    ensures Directory(w, d)
  {
  }

  /** Entering a child keeps string and inode in agreement. */
  lemma ChildAgrees(w: World, live: set<nat>, s: State, name: Name)
    requires Tree(w, live) && Agrees(w, live, s) && IsChild(w, s.inode, name)
    ensures Agrees(w, live, State(s.names + [name], Lookup(w, s.inode, name)))
  {
    hide Tree, Directory, Walk, Find, Lookup;
    var target := Lookup(w, s.inode, name);
    ZeroIsNoDirectory(w);
    LiveTarget(w, live, s.inode, name);
    ChildIsComponent(w, live, s.inode, name);
    LookupIsFindHere(w, live, s.inode, name);
    WalkAppend(Finder(w), ROOT, s.names, [name]);
    OneStep(Finder(w), s.inode, name);
    assert Finder(w)(s.inode, name) == Find(w, s.inode, name);
    assert forall c :: c in s.names + [name] ==> c in s.names || c == name;
  }

  lemma LiveTarget(w: World, live: set<nat>, d: nat, name: Name)
    requires Tree(w, live) && d in live
    ensures Lookup(w, d, name) != 0 ==> Lookup(w, d, name) in live
  {
    FoundIsLive(w, live, d, name);
  }

  /** Each change of directory keeps string and inode in agreement. */
  lemma StepAgrees(w: World, live: set<nat>, s: State, name: Name)
    requires Tree(w, live) && Agrees(w, live, s)
    ensures Agrees(w, live, Step(w, s, name))
  {
    hide Tree, Directory, Walk, Find, Lookup;
    var target := Lookup(w, s.inode, name);
    if name == [] || target == 0 || !Directory(w, target) {
    } else if name == DOT {
      DotStays(w, live, s.inode);
    } else if name == DOT_DOT {
      LiveTarget(w, live, s.inode, name);
      ParentStep(w, live, s);
    } else {
      ChildAgrees(w, live, s, name);
    }
  }

  lemma DotStays(w: World, live: set<nat>, d: nat)
    requires Tree(w, live) && d in live && Directory(w, d)
    ensures Lookup(w, d, DOT) == d
  {
    assert TreeNode(w, d);
  }

  lemma ZeroIsNoDirectory(w: World)
    ensures !Directory(w, 0)
  {
  }

  lemma ParentStep(w: World, live: set<nat>, s: State)
    requires Tree(w, live) && Agrees(w, live, s)
    ensures Lookup(w, s.inode, DOT_DOT) == Walk(Finder(w), ROOT, Parent(s.names))
    ensures Components(Parent(s.names)) && DOT !in Parent(s.names) && DOT_DOT !in Parent(s.names)
  {
    if s.names == [] {
      assert Walk(Finder(w), ROOT, []) == ROOT;
    } else {
      LastStep(w, live, s);
    }
  }

  /** The path a name gives when it is written behind the current one. */
  function Joined(names: seq<Name>, name: Name): seq<byte> {
    if names == [] then [SLASH] + name else Absolute(names) + [SLASH] + name
  }

  /**
   A change of directory goes where resolve_path would: to what the current path with the name
   behind it leads to if that is a directory, and nowhere otherwise.
   */
  lemma CdFollowsPath(w: World, live: set<nat>, s: State, name: Name)
    requires Tree(w, live) && Agrees(w, live, s) && Component(name)
    ensures var target := Resolve(Finder(w), Joined(s.names, name));
            Step(w, s, name).inode == if Directory(w, target) then target else s.inode
  {
    hide Tree, Directory, Walk, Find, Lookup, Tokens;
    ZeroIsNoDirectory(w);
    LookupIsFindHere(w, live, s.inode, name);
    TokensOfComponent(name);
    OneStep(Finder(w), s.inode, name);
    ResolveJoined(w, s, name);
    assert Finder(w)(s.inode, name) == Find(w, s.inode, name);
    SelfOrParent(w, live, s, name);
  }

  /** "." and ".." always name directories, so every name that can be entered moves the inode to its target. */
  lemma SelfOrParent(w: World, live: set<nat>, s: State, name: Name)
    requires Tree(w, live) && Agrees(w, live, s) && name != []
    ensures Step(w, s, name).inode ==
            if Directory(w, Lookup(w, s.inode, name)) then Lookup(w, s.inode, name) else s.inode
  {
    hide Tree, Directory, Lookup;
    ZeroIsNoDirectory(w);
  }

  lemma ResolveJoined(w: World, s: State, name: Name)
    requires Components(s.names) && Component(name)
    ensures Resolve(Finder(w), Joined(s.names, name)) == Walk(Finder(w), Walk(Finder(w), ROOT, s.names), Tokens(name))
  {
    hide Tokens, Walk;
    if s.names == [] {
      assert Strip([SLASH] + name) == name;
      WalkEmpty(w);
    } else {
      RelativeShape(s.names);
      var p := Absolute(s.names);
      assert p[|p| - 1] == Relative(s.names)[|Relative(s.names)| - 1];
      ResolveJoin(Finder(w), p, name);
      ResolveAbsolute(Finder(w), s.names);
    }
  }

  lemma WalkEmpty(w: World)
    ensures Walk(Finder(w), ROOT, []) == ROOT
  {
  }

  /** Entering a child and returning restores the state. */
  lemma ThereAndBack(w: World, live: set<nat>, s: State, name: Name)
    requires Tree(w, live) && Agrees(w, live, s) && name != [] && IsChild(w, s.inode, name)
    ensures Step(w, Step(w, s, name), DOT_DOT) == s
  {
    ZeroIsNoDirectory(w);
    assert (s.names + [name])[..|s.names|] == s.names;
  }

  ghost function Run(w: World, s: State, names: seq<Name>): State
    decreases |names|
  {
    if names == [] then s else Run(w, Step(w, s, names[0]), names[1..])
  }

  const START: State := State([], ROOT)

  /**
   At every point of any run from the root, the path string is normalised and resolving
   it gives the current inode.
   */
  lemma {:induction false} RunAgrees(w: World, live: set<nat>, s: State, names: seq<Name>)
    requires Tree(w, live) && Agrees(w, live, s)
    ensures var r := Run(w, s, names);
            Agrees(w, live, r) && Normalised(Absolute(r.names)) && Resolve(Finder(w), Absolute(r.names)) == r.inode
    decreases |names|
  {
    hide Tree, Agrees, Normalised, Resolve, Step;
    if names == [] {
      AgreesMeans(w, live, s);
    } else {
      StepAgrees(w, live, s, names[0]);
      RunAgrees(w, live, Step(w, s, names[0]), names[1..]);
    }
  }

  lemma AgreesMeans(w: World, live: set<nat>, s: State)
    requires Agrees(w, live, s)
    ensures Normalised(Absolute(s.names)) && Resolve(Finder(w), Absolute(s.names)) == s.inode
  {
    AbsoluteIsNormalised(s.names);
    ResolveAbsolute(Finder(w), s.names);
  }

  lemma StartAgrees(w: World, live: set<nat>)
    requires Tree(w, live)
    ensures Agrees(w, live, START)
  {
  }

  // ---------------------------------------------------------------- the string in its buffer

  const PATH_MAX: nat := 128           // SHELL_CWD_PATH_MAX

  lemma PushString(names: seq<Name>, name: Name)
    ensures Absolute(names + [name]) ==
            if names == [] then [SLASH] + name else Absolute(names) + [SLASH] + name
  {
    var cs := names + [name];
    assert cs[..|cs| - 1] == names && cs[|cs| - 1] == name;
    if names != [] {
      assert [SLASH] + (Relative(names) + [SLASH] + name) == [SLASH] + Relative(names) + [SLASH] + name;
    }
  }

  /** Everything ext2_cd needs to know about the last slash of the current path. */
  lemma LastSlash(names: seq<Name>, at: nat)
    requires Components(names) && at < |Absolute(names)| && Absolute(names)[at] == SLASH
    requires forall j :: at < j < |Absolute(names)| ==> Absolute(names)[j] != SLASH
    ensures at > 0 ==> Absolute(names)[..at] == Absolute(Parent(names))
    ensures at == 0 ==> |names| <= 1 && (|Absolute(names)| > 1 <==> names != [])
  {
    var s := Absolute(names);
    if names != [] {
      var init, last := Parent(names), names[|names| - 1];
      assert names == init + [last] && last in names;
      PushString(init, last);
      if init != [] {
        var a := Absolute(init);
        assert s == a + [SLASH] + last;
        assert s[|a|] == SLASH;
        SlashFree(a, last, at);
        assert s[..at] == a;
      } else {
        assert s == [] + [SLASH] + last;
        SlashFree([], last, at);
      }
    }
  }

  lemma SlashFree(a: seq<byte>, last: Name, at: nat)
    requires Component(last)
    requires var s := a + [SLASH] + last;
             at < |s| && s[at] == SLASH && forall j :: at < j < |s| ==> s[j] != SLASH
    ensures at == |a|
  {
    var s := a + [SLASH] + last;
    assert s[|a|] == SLASH;
    assert forall j :: |a| < j < |s| ==> s[j] == last[j - |a| - 1];
  }

  class Shell {
    const path: array<byte>            // g_cwd_path
    var inode: nat                     // g_cwd_node.internal_id
    ghost var names: seq<Name>

    /** The buffer holds the path string with its terminator. */
    ghost predicate Spells(cs: seq<Name>)
      reads path
    {
      && path.Length == PATH_MAX && |Absolute(cs)| < PATH_MAX
      && path[..|Absolute(cs)|] == Absolute(cs) && path[|Absolute(cs)|] == 0
    }

    ghost predicate Valid(w: World, live: set<nat>)
      reads this, path
    {
      Spells(names) && Agrees(w, live, State(names, inode))
    }

    constructor (w: World, ghost live: set<nat>)
      requires Tree(w, live)
      ensures Valid(w, live) && names == [] && inode == ROOT && fresh(path)
    {
      path := new byte[PATH_MAX](i => if i == 0 then SLASH else 0);
      inode, names := ROOT, [];
      new;
      assert Absolute([]) == [SLASH];
      StartAgrees(w, live);
    }

    /** The length of the path, found by looking for its terminator. */
    method Length() returns (len: nat)
      requires Spells(names) && Components(names)
      ensures len == |Absolute(names)|
    {
      hide Absolute;
      NulFreePath(names);
      ghost var text := Absolute(names);
      assert forall j :: 0 <= j < |text| ==> path[j] == text[j] != 0 by {
        assert forall j :: 0 <= j < |text| ==> path[..|text|][j] == path[j];
      }
      len := 0;
      while path[len] != 0
        invariant 0 <= len <= |Absolute(names)|
        decreases PATH_MAX - len
      {
        len := len + 1;
      }
    }

    lemma NulFreePath(cs: seq<Name>)
      requires Components(cs)
      ensures NulFree(Absolute(cs)) && Absolute(cs) != [] && Absolute(cs)[0] == SLASH
    {
      AbsoluteIsNormalised(cs);
    }

    /** Cut the last name off the buffer, keeping the root's slash. */
    method Pop()
      requires Spells(names) && Components(names)
      modifies path, this`names
      ensures Spells(names) && names == Parent(old(names))
    {
      hide Absolute;
      var len := Length();
      NulFreePath(names);
      ghost var text := Absolute(names);
      var last := 0;
      var i := 0;
      while i < len
        invariant 0 <= i <= len && 0 <= last < len && path[..len] == text
        invariant i > 0 ==> last < i && text[last] == SLASH
        invariant forall j :: last < j < i ==> text[j] != SLASH
      {
        assert path[i] == path[..len][i];
        if path[i] == SLASH {
          last := i;
        }
        i := i + 1;
      }
      LastSlash(names, last);
      if last > 0 {
        path[last] := 0;
        assert path[..last] == text[..last];
      } else if len > 1 {
        path[1] := 0;
        RootText();
        assert path[..1] == [SLASH] by { assert path[0] == old(path[..len])[0]; }
      }
      names := Parent(names);
    }

    lemma RootText()
      ensures Absolute([]) == [SLASH]
    {
    }

    /** Append a name to the buffer, behind a slash unless the path is the root. */
    method Push(name: Name)
      requires Spells(names) && Components(names) && |Absolute(names + [name])| < PATH_MAX
      modifies path, this`names
      ensures Spells(names) && names == old(names) + [name]
    {
      hide Absolute;
      var len := Length();
      PushString(names, name);
      RootText();
      OnlyRootIsShort(names);
      ghost var text := Absolute(names);
      var at := len;
      assert path[..len] == text;
      if !(len == 1 && path[0] == SLASH) {
        path[len] := SLASH;
        at := len + 1;
        assert path[..at] == text + [SLASH];
      }
      ghost var front := path[..at];
      CopyName(name, at, front);
      names := names + [name];
    }

    /** Copy the name and its terminator behind the first `at` characters. */
    method CopyName(name: Name, at: nat, ghost front: seq<byte>)
      requires at + |name| < path.Length && path[..at] == front
      modifies path
      ensures path[..at + |name|] == front + name && path[at + |name|] == 0
    {
      var i := 0;
      while i < |name|
        invariant 0 <= i <= |name|
        invariant path[..at + i] == front + name[..i]
      {
        path[at + i] := name[i];
        assert path[..at + i + 1] == path[..at + i] + [name[i]];
        i := i + 1;
      }
      path[at + i] := 0;
      assert path[..at + i] == front + name[..i];
    }

    lemma OnlyRootIsShort(cs: seq<Name>)
      requires Components(cs)
      ensures Absolute(cs) == [SLASH] <==> cs == []
      ensures |Absolute(cs)| == 1 <==> cs == []
    {
      if cs != [] { RelativeShape(cs); }
    }

    method Cd(w: World, name: Name, heap: Heap, ghost live: set<nat>)
      requires Tree(w, live) && Valid(w, live) && NulFree(name)
      requires HeapAnswers(w, heap) && heap as object != this && heap.mem != path
      requires IsChild(w, inode, name) ==> |Absolute(names + [name])| < PATH_MAX
      modifies this, path, heap, heap.mem
      ensures Valid(w, live) && State(names, inode) == Step(w, State(old(names), old(inode)), name)
      ensures HeapKept(heap, old(heap.blocks), old(heap.mem[..]))
    {
      hide Tree, SoundInode, Agrees, Absolute, HeapKept, CanBuffer;
      HeapUntouched(heap);
      if name == [] {
        return;
      }
      Facts(w, live);
      StepAgrees(w, live, State(names, inode), name);
      var target := LookupChecked(w, inode, name, heap, live);
      if target == 0 {
        return;
      }
      var isDir := CheckDirectory(w, target);
      if !isDir {
        return;
      }
      MoveTo(name, target, w);
    }

    /** The string and the inode once the target is known to be a directory. */
    method MoveTo(name: Name, target: nat, ghost w: World)
      requires Spells(names) && Components(names) && NulFree(name) && name != []
      requires Directory(w, target) && target == Lookup(w, inode, name)
      requires name != DOT && name != DOT_DOT ==> |Absolute(names + [name])| < PATH_MAX
      modifies this, path
      ensures Spells(names) && State(names, inode) == Step(w, State(old(names), old(inode)), name)
    {
      hide Absolute, Directory, Lookup, Components;
      var dot := Strcmp(name, DOT);
      var dotDot := Strcmp(name, DOT_DOT);
      CStrOfNulFree(name);
      Dots();
      ZeroIsNoDirectory(w);
      if dot == 0 {
      } else if dotDot == 0 {
        Pop();
      } else {
        Push(name);
      }
      inode := target;
    }

    lemma Facts(w: World, live: set<nat>)
      requires Tree(w, live) && Agrees(w, live, State(names, inode))
      ensures SoundWorld(w, live) && Components(names) && inode in live
    {
    }

    lemma Dots()
      ensures CStr(DOT) == DOT && CStr(DOT_DOT) == DOT_DOT && DOT != DOT_DOT
    {
      CStrOfNulFree(DOT);
      CStrOfNulFree(DOT_DOT);
    }

    method LookupChecked(w: World, dir: nat, name: Name, heap: Heap, ghost live: set<nat>) returns (r: nat)
      requires SoundWorld(w, live) && dir in live && NulFree(name) && HeapAnswers(w, heap)
      modifies heap, heap.mem
      ensures r == Lookup(w, dir, name) && (r != 0 ==> r in live && SoundInode(w, r))
      ensures HeapKept(heap, old(heap.blocks), old(heap.mem[..]))
    {
      hide CanBuffer, HeapKept;
      FoundIsLive(w, live, dir, name);
      r := Ext2Lookup(w.fs, dir, name, w.lookupTail, heap);
    }

    method CheckDirectory(w: World, n: nat) returns (r: bool)
      requires SoundInode(w, n)
      ensures r == Directory(w, n)
    {
      var ino := GetInode(w.fs, n);
      r := IsDir(ino);
    }
  }
}
