/**
 page_map and page_get_phys over physical memory: two-level page tables as a
 partial map from pages to frames.
 */
module AddressSpace {
  import opened Words
  import opened Bits
  import Frames
  import opened PageEntries

  const ENTRIES: nat := 1024           // words per page

  type Word = x: int | 0 <= x < WORD_LIMIT
  type Page = p: seq<Word> | |p| == 1024 witness seq(1024, _ => 0)

  function ZeroPage(): Page { seq(1024, _ => 0) }

  /** Physical memory, one page of 1024 words per frame. */
  type Memory = seq<Page>

  function Put(m: Memory, f: nat, i: nat, w: Word): Memory
    requires f < |m| && i < ENTRIES
  {
    m[f := m[f][i := w]]
  }

  /** Directory entry i of d is present. */
  predicate HasTable(m: Memory, d: nat, i: nat) {
    d < |m| && i < ENTRIES && Present(m[d][i])
  }

  function TableOf(m: Memory, d: nat, i: nat): nat
    requires d < |m| && i < ENTRIES
  {
    FrameOf(m[d][i])
  }

  /** The frame that `page` translates to in the directory at frame d. */
  function Translate(m: Memory, d: nat, page: nat): Option<nat> {
    if page >= ALL_PAGES || !HasTable(m, d, page / ENTRIES) then None
    else
      var t := TableOf(m, d, page / ENTRIES);
      if t >= |m| || !Present(m[t][page % ENTRIES]) then None
      else Some(FrameOf(m[t][page % ENTRIES]))
  }

  /**
   The run invariant: directories and page tables are frames in use, a page table
   is no directory, and no two directory entries share a page table.
   */
  ghost predicate Separate(m: Memory, used: set<nat>, dirs: set<nat>) {
    && (forall d :: d in dirs ==> d < |m| && d in used)
    && (forall d: nat, i: nat :: d in dirs && HasTable(m, d, i) ==>
          TableOf(m, d, i) < |m| && TableOf(m, d, i) in used && TableOf(m, d, i) !in dirs)
    && (forall d: nat, i: nat, d': nat, i': nat | d in dirs && d' in dirs && HasTable(m, d, i) && HasTable(m, d', i') ::
          TableOf(m, d, i) == TableOf(m, d', i') ==> d == d' && i == i')
  }

  // ---------------------------------------------------------------- the two writes of page_map

  /** Memory after page_map has zeroed frame t and entered it at (pd, pde). */
  function WithTable(m: Memory, pd: nat, pde: nat, t: nat, e: Word): Memory
    requires pd < |m| && t < |m| && pde < ENTRIES
  {
    Put(m[t := ZeroPage()], pd, pde, e)
  }

  /** A fresh zeroed table that aliases nothing in use changes no translation. */
  lemma TableAdded(m: Memory, used: set<nat>, dirs: set<nat>, pd: nat, pde: nat, t: nat, e: Word)
    requires Separate(m, used, dirs) && pd in dirs && pde < ENTRIES && !HasTable(m, pd, pde)
    requires t < |m| && t !in used && Present(e) && FrameOf(e) == t
    ensures var m' := WithTable(m, pd, pde, t, e);
            && Separate(m', used + {t}, dirs) && HasTable(m', pd, pde)
            && forall d: nat, page: nat :: d in dirs ==> Translate(m', d, page) == Translate(m, d, page)
  {
    var m' := WithTable(m, pd, pde, t, e);
    forall d: nat, i: nat | d in dirs && i < ENTRIES
      ensures HasTable(m', d, i) <==> HasTable(m, d, i) || (d == pd && i == pde)
      ensures !(d == pd && i == pde) ==> TableOf(m', d, i) == TableOf(m, d, i)
    {
    }
    forall d: nat, page: nat | d in dirs ensures Translate(m', d, page) == Translate(m, d, page) {
      SameTranslation(m, m', used, dirs, pd, pde, t, d, page);
    }
  }

  lemma SameTranslation(m: Memory, m': Memory, used: set<nat>, dirs: set<nat>, pd: nat, pde: nat, t: nat,
                        d: nat, page: nat)
    requires Separate(m, used, dirs) && pd in dirs && pde < ENTRIES && !HasTable(m, pd, pde)
    requires t < |m| && t !in used && d in dirs && |m'| == |m|
    requires m'[t] == ZeroPage() && TableOf(m', pd, pde) == t
    requires forall f :: 0 <= f < |m| && f != t && f != pd ==> m'[f] == m[f]
    requires forall i :: 0 <= i < ENTRIES && i != pde ==> m'[pd][i] == m[pd][i]
    ensures Translate(m', d, page) == Translate(m, d, page)
  {
    if page < ALL_PAGES && HasTable(m, d, page / ENTRIES) {
      assert TableOf(m, d, page / ENTRIES) != t && TableOf(m, d, page / ENTRIES) != pd;
    }
  }

  /** Writing one table entry changes the translation of one page of one directory. */
  lemma EntryWritten(m: Memory, used: set<nat>, dirs: set<nat>, pd: nat, page: nat, e: Word)
    requires Separate(m, used, dirs) && pd in dirs && page < ALL_PAGES && HasTable(m, pd, page / ENTRIES)
    requires Present(e)
    ensures var t := TableOf(m, pd, page / ENTRIES);
            t < |m| &&
            var m' := Put(m, t, page % ENTRIES, e);
            && Separate(m', used, dirs)
            && forall d: nat, p: nat :: d in dirs ==>
                 Translate(m', d, p) == if d == pd && p == page then Some(FrameOf(e)) else Translate(m, d, p)
  {
    var t := TableOf(m, pd, page / ENTRIES);
    var m' := Put(m, t, page % ENTRIES, e);
    assert t !in dirs;
    forall d: nat, i: nat | d in dirs && i < ENTRIES
      ensures HasTable(m', d, i) <==> HasTable(m, d, i)
      ensures TableOf(m', d, i) == TableOf(m, d, i)
    {
      assert m'[d] == m[d];
    }
    forall d: nat, p: nat | d in dirs
      ensures Translate(m', d, p) == if d == pd && p == page then Some(FrameOf(e)) else Translate(m, d, p)
    {
      if p < ALL_PAGES && HasTable(m, d, p / ENTRIES) && TableOf(m, d, p / ENTRIES) == t {
        assert d == pd && p / ENTRIES == page / ENTRIES;
        assert p % ENTRIES == page % ENTRIES ==> p == page;
      }
    }
  }

  // ---------------------------------------------------------------- one page_map

  datatype State = State(mem: Memory, used: set<nat>)
  datatype Request = Request(pd: nat, page: nat, frame: nat, flags: nat)

  predicate Proper(r: Request) { r.page < ALL_PAGES && r.frame < ALL_PAGES && r.flags < PAGE_SIZE }

  function Entry(frame: nat, flags: nat): Word
    requires frame < ALL_PAGES && flags < PAGE_SIZE
  {
    EntryFields(frame, flags);
    MakeEntry(frame * PAGE_SIZE, flags)
  }

  /** Memory and bitmap once the page table for r exists, if it can. */
  ghost function Tabled(s: State, total: nat, r: Request): State
    requires Proper(r)
  {
    var pde := r.page / ENTRIES;
    var t := Frames.LowestFree(s.used, total);
    if HasTable(s.mem, r.pd, pde) || r.pd >= |s.mem| || t >= total || t >= |s.mem| || t >= ALL_PAGES then s
    else State(WithTable(s.mem, r.pd, pde, t, Entry(t, r.flags)), s.used + {t})
  }

  /** What one page_map call does. */
  ghost function Mapped(s: State, total: nat, r: Request): State
    requires Proper(r)
  {
    var s' := Tabled(s, total, r);
    if !HasTable(s'.mem, r.pd, r.page / ENTRIES) || TableOf(s'.mem, r.pd, r.page / ENTRIES) >= |s'.mem| then s
    else State(Put(s'.mem, TableOf(s'.mem, r.pd, r.page / ENTRIES), r.page % ENTRIES, Entry(r.frame, r.flags)), s'.used)
  }

  /** User code may write to page p of directory d: present, writable and user at both levels. */
  predicate UserMayWrite(m: Memory, d: nat, p: nat) {
    && d < |m| && p < ALL_PAGES
    && Bit(m[d][p / ENTRIES], 0) && Bit(m[d][p / ENTRIES], 1) && Bit(m[d][p / ENTRIES], 2)
    && var t := TableOf(m, d, p / ENTRIES);
       t < |m| && Bit(m[t][p % ENTRIES], 0) && Bit(m[t][p % ENTRIES], 1) && Bit(m[t][p % ENTRIES], 2)
  }

  /** The table for r exists or a frame is left for one. */
  ghost predicate CanMap(s: State, total: nat, r: Request) {
    HasTable(s.mem, r.pd, r.page / ENTRIES) || Frames.LowestFree(s.used, total) < total
  }

  ghost predicate Sound(s: State, total: nat, dirs: set<nat>) {
    total <= |s.mem| <= ALL_PAGES && Separate(s.mem, s.used, dirs)
  }

  /**
   page_map then translation: the mapped page gives the mapped frame and every
   other page of every directory translates as before; exhaustion changes nothing.
   */
  lemma MappedTranslates(s: State, total: nat, dirs: set<nat>, r: Request)
    requires Sound(s, total, dirs) && r.pd in dirs && Proper(r)
    ensures Sound(Mapped(s, total, r), total, dirs)
    ensures !CanMap(s, total, r) ==> Mapped(s, total, r) == s
    ensures CanMap(s, total, r) ==>
              forall d: nat, p: nat | d in dirs ::
                Translate(Mapped(s, total, r).mem, d, p) ==
                  if d == r.pd && p == r.page then Some(r.frame) else Translate(s.mem, d, p)
  {
    hide Translate;
    assert r.pd < |s.mem|;
    EntryFields(r.frame, r.flags);
    var s' := Tabled(s, total, r);
    var t := Frames.LowestFree(s.used, total);
    if !HasTable(s.mem, r.pd, r.page / ENTRIES) && t < total {
      EntryFields(t, r.flags);
      TableAdded(s.mem, s.used, dirs, r.pd, r.page / ENTRIES, t, Entry(t, r.flags));
    }
    if CanMap(s, total, r) {
      EntryWritten(s'.mem, s'.used, dirs, r.pd, r.page, Entry(r.frame, r.flags));
    }
  }

  /** Word w is an entry for `frame` with the given flags: the frame above, flag by flag below, present. */
  predicate EntryFor(w: nat, frame: nat, flags: nat) {
    w / 4096 == frame && forall k :: 0 <= k < 12 ==> (Bit(w, k) <==> k == 0 || Bit(flags, k))
  }

  lemma EntryIsFor(frame: nat, flags: nat)
    requires frame < ALL_PAGES && flags < PAGE_SIZE
    ensures EntryFor(Entry(frame, flags), frame, flags)
  {
    hide Bit, MakeEntry;
    EntryStores(frame, flags);
    EntryFields(frame, flags);
  }

  /** What is stored, word by word: the directory entry, the page's entry, and a cleared rest of a new table. */
  lemma MappedStores(s: State, total: nat, dirs: set<nat>, r: Request)
    requires Sound(s, total, dirs) && r.pd in dirs && Proper(r) && CanMap(s, total, r)
    ensures var m, pde := Mapped(s, total, r).mem, r.page / ENTRIES;
            && r.pd < |m| && m[r.pd][pde] / 4096 < |m| && |m| == |s.mem|
            && (HasTable(s.mem, r.pd, pde) ==> m[r.pd] == s.mem[r.pd])
            && (!HasTable(s.mem, r.pd, pde) ==> EntryFor(m[r.pd][pde], Frames.LowestFree(s.used, total), r.flags))
            && EntryFor(m[m[r.pd][pde] / 4096][r.page % ENTRIES], r.frame, r.flags)
            && (!HasTable(s.mem, r.pd, pde) ==>
                  forall i :: 0 <= i < ENTRIES && i != r.page % ENTRIES ==> m[m[r.pd][pde] / 4096][i] == 0)
  {
    hide EntryFor, MakeEntry, Separate, Entry;
    var t := Frames.LowestFree(s.used, total);
    DirectoryUsed(s, total, dirs, r.pd);
    EntryIsFor(r.frame, r.flags);
    EntryFrameOf(r.frame, r.flags);
    if HasTable(s.mem, r.pd, r.page / ENTRIES) {
      TableUsed(s, total, dirs, r.pd, r.page / ENTRIES);
    } else {
      EntryIsFor(t, r.flags);
      EntryFrameOf(t, r.flags);
    }
  }

  lemma EntryFrameOf(frame: nat, flags: nat)
    requires frame < ALL_PAGES && flags < PAGE_SIZE
    ensures FrameOf(Entry(frame, flags)) == frame && Present(Entry(frame, flags))
  {
    EntryFields(frame, flags);
  }

  // ---------------------------------------------------------------- the three outcomes of a call

  /** The kernel, whose accesses go through directory kd, finds frame f at the frame's own address. */
  predicate Reaches(m: Memory, kd: nat, f: nat) { Translate(m, kd, f) == Some(f) }

  /** A call works, halts in the page fault handler, or clears a frame that is not its page table. */
  datatype Outcome = Works | Halts | Strays(frame: nat)

  /**
   page_map clears a new page table t through the kernel's own directory: it works if the page
   of t means frame t, halts if that page is absent, and strays if it means another frame.
   */
  ghost function OutcomeOf(s: State, total: nat, kd: nat, r: Request): Outcome {
    var t := Frames.LowestFree(s.used, total);
    if HasTable(s.mem, r.pd, r.page / ENTRIES) || t >= total then Works
    else match Translate(s.mem, kd, t)
      case None => Halts
      case Some(g) => if g == t then Works else Strays(g)
  }

  /**
   What a call that strays onto frame g leaves: g is cleared and receives the entry, while the
   directory points at frame t with the bytes it had.
   */
  ghost function Strayed(s: State, total: nat, r: Request, g: nat): State
    requires Proper(r)
  {
    var pde := r.page / ENTRIES;
    var t := Frames.LowestFree(s.used, total);
    if r.pd >= |s.mem| || t >= ALL_PAGES then s
    else if g >= |s.mem| then State(Put(s.mem, r.pd, pde, Entry(t, r.flags)), s.used + {t})
    else
      var m := WithTable(s.mem, r.pd, pde, g, Entry(t, r.flags));
      State(Put(m, g, r.page % ENTRIES, Entry(r.frame, r.flags)), s.used + {t})
  }

  /** Frame f holds a page table of one of the directories. */
  ghost predicate IsTable(m: Memory, dirs: set<nat>, f: nat) {
    exists d: nat, i: nat :: d in dirs && HasTable(m, d, i) && TableOf(m, d, i) == f
  }

  /** Frame f is a page directory or a page table. */
  ghost predicate Structure(m: Memory, dirs: set<nat>, f: nat) { f in dirs || IsTable(m, dirs, f) }

  /** The kernel finds every page directory and every page table at its own address. */
  ghost predicate Window(m: Memory, kd: nat, dirs: set<nat>, total: nat) {
    kd in dirs && forall f: nat :: Structure(m, dirs, f) ==> f < total && Reaches(m, kd, f)
  }

  /** The request gives the kernel's page of a directory or page table another frame. */
  ghost predicate Redirects(m: Memory, kd: nat, dirs: set<nat>, r: Request) {
    r.pd == kd && r.page != r.frame && Structure(m, dirs, r.page)
  }

  lemma TabledTables(s: State, total: nat, dirs: set<nat>, r: Request, d: nat, i: nat)
    requires Sound(s, total, dirs) && r.pd in dirs && Proper(r) && d in dirs
    requires HasTable(Tabled(s, total, r).mem, d, i)
    ensures var m := Tabled(s, total, r).mem;
            || (HasTable(s.mem, d, i) && TableOf(m, d, i) == TableOf(s.mem, d, i))
            || (!HasTable(s.mem, r.pd, r.page / ENTRIES) &&
                TableOf(m, d, i) == Frames.LowestFree(s.used, total) < total)
  {
    var t := Frames.LowestFree(s.used, total);
    if !HasTable(s.mem, r.pd, r.page / ENTRIES) && t < total {
      EntryFields(t, r.flags);
      assert t !in dirs;
    }
  }

  /** The page tables after page_map: those before it, and the new one. */
  lemma MappedTables(s: State, total: nat, dirs: set<nat>, r: Request, f: nat)
    requires Sound(s, total, dirs) && r.pd in dirs && Proper(r) && IsTable(Mapped(s, total, r).mem, dirs, f)
    ensures || IsTable(s.mem, dirs, f)
            || (!HasTable(s.mem, r.pd, r.page / ENTRIES) && f == Frames.LowestFree(s.used, total) < total)
  {
    hide Separate, Entry, WithTable;
    var m := Mapped(s, total, r).mem;
    var d: nat, i: nat :| d in dirs && HasTable(m, d, i) && TableOf(m, d, i) == f;
    SameDirectories(s, total, dirs, r, d);
    if m != s.mem {
      TabledTables(s, total, dirs, r, d, i);
    }
  }

  lemma KeptEntry(s: State, total: nat, dirs: set<nat>, r: Request, d: nat, i: nat)
    requires Sound(s, total, dirs) && r.pd in dirs && Proper(r) && d in dirs && HasTable(s.mem, d, i)
    ensures HasTable(Mapped(s, total, r).mem, d, i) && TableOf(Mapped(s, total, r).mem, d, i) == TableOf(s.mem, d, i)
  {
    hide Entry, Mapped;
    SameDirectories(s, total, dirs, r, d);
    var t := Frames.LowestFree(s.used, total);
    if !HasTable(s.mem, r.pd, r.page / ENTRIES) && t < total {
      assert t !in dirs;
    }
  }

  lemma NewEntry(s: State, total: nat, dirs: set<nat>, r: Request)
    requires Sound(s, total, dirs) && r.pd in dirs && Proper(r) && Mapped(s, total, r).used != s.used
    ensures var t := Frames.LowestFree(s.used, total);
            && Mapped(s, total, r).used == s.used + {t}
            && HasTable(Mapped(s, total, r).mem, r.pd, r.page / ENTRIES)
            && TableOf(Mapped(s, total, r).mem, r.pd, r.page / ENTRIES) == t
  {
    hide Separate;
    var t := Frames.LowestFree(s.used, total);
    DirectoryUsed(s, total, dirs, r.pd);
    if t < total { EntryFields(t, r.flags); }
    SameDirectories(s, total, dirs, r, r.pd);
  }

  /** Structures stay structures, and the frame page_map takes becomes one. */
  lemma KeptTables(s: State, total: nat, dirs: set<nat>, r: Request, f: nat)
    requires Sound(s, total, dirs) && r.pd in dirs && Proper(r)
    ensures Structure(s.mem, dirs, f) ==> Structure(Mapped(s, total, r).mem, dirs, f)
    ensures f in Mapped(s, total, r).used && f !in s.used ==> Structure(Mapped(s, total, r).mem, dirs, f)
  {
    hide Sound, Mapped, HasTable;
    if IsTable(s.mem, dirs, f) {
      var d: nat, i: nat := TableSite(s.mem, dirs, f);
      KeptEntry(s, total, dirs, r, d, i);
    }
    if f in Mapped(s, total, r).used && f !in s.used {
      NewEntry(s, total, dirs, r);
    }
  }

  lemma TableSite(m: Memory, dirs: set<nat>, f: nat) returns (d: nat, i: nat)
    requires IsTable(m, dirs, f)
    ensures d in dirs && HasTable(m, d, i) && TableOf(m, d, i) == f
  {
    d, i :| d in dirs && HasTable(m, d, i) && TableOf(m, d, i) == f;
  }

  /** The entry write of page_map touches no directory. */
  lemma SameDirectories(s: State, total: nat, dirs: set<nat>, r: Request, d: nat)
    requires Sound(s, total, dirs) && r.pd in dirs && Proper(r) && d in dirs
    ensures d < |s.mem| == |Mapped(s, total, r).mem|
    ensures Mapped(s, total, r).mem[d] == Tabled(s, total, r).mem[d] || Mapped(s, total, r).mem == s.mem
  {
    var t := Frames.LowestFree(s.used, total);
    var pde := r.page / ENTRIES;
    if HasTable(s.mem, r.pd, pde) {
      assert TableOf(s.mem, r.pd, pde) !in dirs;
    } else if t < total {
      EntryFields(t, r.flags);
      assert t !in dirs;
      assert TableOf(Tabled(s, total, r).mem, r.pd, pde) == t;
    }
  }

  /**
   A call that works leaves every directory and page table where the kernel finds it, exactly
   unless it redirects the kernel's page of one of them.
   */
  lemma WindowKeptIff(s: State, total: nat, dirs: set<nat>, kd: nat, r: Request)
    requires Sound(s, total, dirs) && Window(s.mem, kd, dirs, total)
    requires r.pd in dirs && Proper(r) && OutcomeOf(s, total, kd, r) == Works
    ensures Window(Mapped(s, total, r).mem, kd, dirs, total) <==>
            !(CanMap(s, total, r) && Redirects(Mapped(s, total, r).mem, kd, dirs, r))
  {
    hide Translate, Separate, IsTable, Mapped;
    var m := Mapped(s, total, r).mem;
    MappedTranslates(s, total, dirs, r);
    forall f: nat | Structure(m, dirs, f) ensures f < total && Reaches(s.mem, kd, f) {
      if f !in dirs { MappedTables(s, total, dirs, r, f); }
      assert Structure(s.mem, dirs, f) || (f == Frames.LowestFree(s.used, total) < total && Reaches(s.mem, kd, f));
    }
    if CanMap(s, total, r) && Redirects(m, kd, dirs, r) {
      assert Structure(m, dirs, r.page) && !Reaches(m, kd, r.page);
    }
  }

  /** The entry that word w of an uncleared page table amounts to. */
  function OldEntry(m: Memory, t: nat, w: nat): Option<nat>
    requires t < |m| && w < ENTRIES
  {
    if Present(m[t][w]) then Some(FrameOf(m[t][w])) else None
  }

  /**
   A call that strays onto a frame that is neither directory nor page table: the 1024 pages
   behind the new table mean what its old bytes happen to say, the mapping asked for is in the
   wrong frame, and all other translations are as before.
   */
  lemma StrayedTranslates(s: State, total: nat, dirs: set<nat>, kd: nat, r: Request, g: nat)
    requires Sound(s, total, dirs) && r.pd in dirs && Proper(r) && OutcomeOf(s, total, kd, r) == Strays(g)
    requires g < |s.mem| && !Structure(s.mem, dirs, g)
    ensures var s', t := Strayed(s, total, r, g), Frames.LowestFree(s.used, total);
            && |s'.mem| == |s.mem| && t < |s.mem| && s'.mem[t] == s.mem[t]
            && s'.mem[g] == ZeroPage()[r.page % ENTRIES := Entry(r.frame, r.flags)]
            && forall d: nat, p: nat | d in dirs && p < ALL_PAGES ::
                 Translate(s'.mem, d, p) ==
                   if d == r.pd && p / ENTRIES == r.page / ENTRIES then OldEntry(s.mem, t, p % ENTRIES)
                   else Translate(s.mem, d, p)
  {
    var s', t := Strayed(s, total, r, g), Frames.LowestFree(s.used, total);
    EntryFields(t, r.flags);
    assert g !in dirs && t !in dirs && r.pd < |s.mem|;
    forall d: nat, p: nat | d in dirs && p < ALL_PAGES
      ensures Translate(s'.mem, d, p) ==
                if d == r.pd && p / ENTRIES == r.page / ENTRIES then OldEntry(s.mem, t, p % ENTRIES)
                else Translate(s.mem, d, p)
    {
      StrayedOne(s, total, dirs, r, g, t, d, p);
    }
  }

  lemma StrayedOne(s: State, total: nat, dirs: set<nat>, r: Request, g: nat, t: nat, d: nat, p: nat)
    requires Sound(s, total, dirs) && r.pd in dirs && Proper(r) && !HasTable(s.mem, r.pd, r.page / ENTRIES)
    requires t == Frames.LowestFree(s.used, total) < total && g != t && g < |s.mem| && !Structure(s.mem, dirs, g)
    requires d in dirs && p < ALL_PAGES && d < |s.mem|
    ensures Translate(Strayed(s, total, r, g).mem, d, p) ==
            if d == r.pd && p / ENTRIES == r.page / ENTRIES then OldEntry(s.mem, t, p % ENTRIES)
            else Translate(s.mem, d, p)
  {
    hide Separate;
    var m := Strayed(s, total, r, g).mem;
    EntryFields(t, r.flags);
    DirectoryUsed(s, total, dirs, r.pd);
    DirectoryUsed(s, total, dirs, d);
    assert m[t] == s.mem[t];
    if HasTable(s.mem, d, p / ENTRIES) {
      TableUsed(s, total, dirs, d, p / ENTRIES);
      assert IsTable(s.mem, dirs, TableOf(s.mem, d, p / ENTRIES));
    }
  }

  lemma DirectoryUsed(s: State, total: nat, dirs: set<nat>, d: nat)
    requires Sound(s, total, dirs) && d in dirs
    ensures d < |s.mem| && d in s.used
  {
  }

  lemma TableUsed(s: State, total: nat, dirs: set<nat>, d: nat, i: nat)
    requires Sound(s, total, dirs) && d in dirs && HasTable(s.mem, d, i)
    ensures TableOf(s.mem, d, i) < |s.mem| && TableOf(s.mem, d, i) in s.used && TableOf(s.mem, d, i) !in dirs
  {
  }

  // ---------------------------------------------------------------- page_get_phys and page_map

  class Spaces {
    const ram: array<Page>
    const frames: Frames.FrameBitmap
    const kd: nat                      // frame of the directory the kernel runs on
    ghost const dirs: set<nat>         // frames that hold page directories

    ghost predicate Valid()
      reads this, ram, frames, frames.words
    {
      && frames.Valid() && ram as object != frames.words
      && frames.totalFrames <= ram.Length <= ALL_PAGES && 0 in frames.Used()
      && Separate(ram[..], frames.Used(), dirs)
      && Window(ram[..], kd, dirs, frames.totalFrames)
    }

    constructor (memory: array<Page>, bitmap: Frames.FrameBitmap, kernel: nat, ghost directories: set<nat>)
      requires bitmap.Valid() && memory as object != bitmap.words
      requires bitmap.totalFrames <= memory.Length <= ALL_PAGES && 0 in bitmap.Used()
      requires Separate(memory[..], bitmap.Used(), directories)
      requires Window(memory[..], kernel, directories, bitmap.totalFrames)
      ensures Valid() && ram == memory && frames == bitmap && kd == kernel && dirs == directories
    {
      ram, frames, kd, dirs := memory, bitmap, kernel, directories;
    }

    method PageGetPhys(pd: nat, vaddr: nat) returns (phys: nat)
      requires Valid() && pd in dirs && vaddr < WORD_LIMIT
      ensures phys == match Translate(ram[..], pd, vaddr / PAGE_SIZE)
                      case None => 0
                      case Some(f) => f * PAGE_SIZE + vaddr % PAGE_SIZE
      // the same from the words of the two levels
      ensures pd < ram.Length && (phys != 0 ==> ram[pd][vaddr / 4194304] / 4096 < ram.Length)
      ensures phys != 0 ==>
                && ram[pd][vaddr / 4194304] % 2 == 1
                && var w := ram[ram[pd][vaddr / 4194304] / 4096][vaddr / 4096 % 1024];
                   w % 2 == 1 && phys == w / 4096 * 4096 + vaddr % 4096
    {
      hide Separate, Window;
      DirInRange(ram[..], frames.Used(), dirs, pd);
      var pde := vaddr / 4194304;
      var pte := vaddr / 4096 % 1024;
      assert vaddr / PAGE_SIZE / ENTRIES == pde;
      assert HasTable(ram[..], pd, pde) <==> ram[pd][pde] % 2 == 1;
      if ram[pd][pde] % 2 != 1 {
        return 0;
      }
      TableInRange(ram[..], frames.Used(), dirs, pd, pde);
      var pt := ram[pd][pde] / PAGE_SIZE;
      if ram[pt][pte] % 2 != 1 {
        return 0;
      }
      var w := ram[pt][pte];
      OrOffset(w / PAGE_SIZE, vaddr % PAGE_SIZE);
      return BitOr(w - w % PAGE_SIZE, vaddr % PAGE_SIZE);
    }

    /** Clear a frame, a word at a time. */
    method ZeroFrame(f: nat)
      requires f < ram.Length
      modifies ram
      ensures ram[..] == old(ram[..])[f := ZeroPage()]
    {
      var n := 0;
      while n < ENTRIES
        invariant 0 <= n <= ENTRIES
        invariant forall i :: 0 <= i < n ==> ram[f][i] == 0
        invariant forall g :: 0 <= g < ram.Length && g != f ==> ram[g] == old(ram[g])
      {
        ram[f] := ram[f][n := 0];
        n := n + 1;
      }
      assert ram[f] == ZeroPage();
    }

    /** The processor's walk through the kernel's directory for an access to page p. */
    method Walk(p: nat) returns (frame: Option<nat>)
      requires kd < ram.Length && p < ALL_PAGES
      ensures frame == Translate(ram[..], kd, p)
    {
      var e := ram[kd][p / ENTRIES];
      if e % 2 != 1 || e / PAGE_SIZE >= ram.Length {
        return None;
      }
      var w := ram[e / PAGE_SIZE][p % ENTRIES];
      return if w % 2 == 1 then Some(w / PAGE_SIZE) else None;
    }

    /**
     The branch of page_map that supplies a missing page table; `table` is the frame it
     has cleared.
     */
    method AddTable(pd: nat, pde: nat, flags: nat) returns (table: Option<nat>, outcome: Outcome)
      requires Valid() && pd in dirs && pde < ENTRIES && !HasTable(ram[..], pd, pde) && flags < PAGE_SIZE
      modifies ram, frames.words
      ensures frames.Valid() && pd < ram.Length
      ensures var t := Frames.LowestFree(old(frames.Used()), frames.totalFrames);
              if t >= frames.totalFrames
              then table == None && outcome == Works && frames.Used() == old(frames.Used()) && ram[..] == old(ram[..])
              else
                && frames.Used() == old(frames.Used()) + {t} && table == Translate(old(ram[..]), kd, t)
                && match table
                   case None => outcome == Halts && ram[..] == old(ram[..])
                   case Some(g) =>
                     && outcome == (if g == t then Works else Strays(g))
                     && ram[..] == (if g < ram.Length then WithTable(old(ram[..]), pd, pde, g, Entry(t, flags))
                                    else Put(old(ram[..]), pd, pde, Entry(t, flags)))
    {
      hide Separate, MakeEntry, Translate, Window;
      ghost var used := frames.Used();
      WindowHasKernel();
      DirInRange(ram[..], used, dirs, kd);
      DirInRange(ram[..], used, dirs, pd);
      var ptPhys := frames.AllocFrame();
      if ptPhys == 0 {
        return None, Works;
      }
      table := Walk(ptPhys / PAGE_SIZE);
      if table == None {
        return None, Halts;
      }
      outcome := if table.value == ptPhys / PAGE_SIZE then Works else Strays(table.value);
      EntryFields(ptPhys / PAGE_SIZE, flags);
      InstallTable(pd, pde, table.value, MakeEntry(ptPhys, flags));
    }

    lemma WindowHasKernel()
      requires Valid()
      ensures kd in dirs
    {
    }

    lemma DirInRange(m: Memory, used: set<nat>, ds: set<nat>, d: nat)
      requires Separate(m, used, ds) && d in ds
      ensures d < |m|
    {
    }

    /** Clear the frame the new table's page means and enter the table in the directory. */
    method InstallTable(pd: nat, pde: nat, g: nat, e: Word)
      requires pd < ram.Length && pde < ENTRIES
      modifies ram
      ensures ram[..] == if g < ram.Length then WithTable(old(ram[..]), pd, pde, g, e)
                         else Put(old(ram[..]), pd, pde, e)
    {
      if g < ram.Length {
        ZeroFrame(g);
      }
      ram[pd] := ram[pd][pde := e];
    }

    /**
     page_map, for every directory, page and frame.  Each of the three outcomes is given by the
     state before the call.  A call that works does what the specification says, and the
     kernel's own tables stay in reach exactly unless the request redirects one of them.
     */
    method PageMap(pd: nat, vaddr: nat, paddr: nat, flags: nat) returns (outcome: Outcome)
      requires Valid() && pd in dirs && vaddr < WORD_LIMIT && paddr < WORD_LIMIT && flags < PAGE_SIZE
      modifies ram, frames.words
      ensures var r := Request(pd, vaddr / PAGE_SIZE, paddr / PAGE_SIZE, flags);
              var s := old(State(ram[..], frames.Used()));
              var total := frames.totalFrames;
              && outcome == OutcomeOf(s, total, kd, r)
              && match outcome
                 case Works =>
                   && State(ram[..], frames.Used()) == Mapped(s, total, r)
                   && (Valid() <==> !(CanMap(s, total, r) && Redirects(ram[..], kd, dirs, r)))
                   // in words: with a table or a frame left for one, the two entries are in place
                   && pd < |s.mem| == ram.Length
                   && var had, t := s.mem[pd][vaddr / 4194304] % 2 == 1, Frames.LowestFree(s.used, total);
                      (had || t < total ==>
                         && ram[pd][vaddr / 4194304] / 4096 < ram.Length
                         && EntryFor(ram[ram[pd][vaddr / 4194304] / 4096][vaddr / 4096 % 1024], paddr / 4096, flags)
                         && (if had then ram[pd] == s.mem[pd] else EntryFor(ram[pd][vaddr / 4194304], t, flags)))
                 case Halts => ram[..] == s.mem && frames.Used() == s.used + {Frames.LowestFree(s.used, total)}
                 case Strays(g) => State(ram[..], frames.Used()) == Strayed(s, total, r, g)
    {
      hide Separate, Translate, Window, Redirects, EntryFor, Mapped, Strayed, OutcomeOf, CanMap, HasTable;
      ghost var s := State(ram[..], frames.Used());
      ghost var r := Request(pd, vaddr / PAGE_SIZE, paddr / PAGE_SIZE, flags);
      SplitVirtual(vaddr);
      DirectoryUsed(s, frames.totalFrames, dirs, pd);
      WhenItMaps(s, frames.totalFrames, r);
      MappedTranslates(s, frames.totalFrames, dirs, r);
      if CanMap(s, frames.totalFrames, r) { MappedStores(s, frames.totalFrames, dirs, r); }
      if OutcomeOf(s, frames.totalFrames, kd, r) == Works { WindowKeptIff(s, frames.totalFrames, dirs, kd, r); }
      MappedKeepsUsed(s, frames.totalFrames, r);
      outcome := MapOnce(pd, vaddr, paddr, flags);
    }

    lemma WhenItMaps(s: State, total: nat, r: Request)
      requires r.pd < |s.mem| && Proper(r)
      ensures HasTable(s.mem, r.pd, r.page / ENTRIES) <==> s.mem[r.pd][r.page / ENTRIES] % 2 == 1
      ensures CanMap(s, total, r) <==>
              s.mem[r.pd][r.page / ENTRIES] % 2 == 1 || Frames.LowestFree(s.used, total) < total
    {
    }

    lemma SplitVirtual(vaddr: nat)
      requires vaddr < WORD_LIMIT
      ensures vaddr / PAGE_SIZE / ENTRIES == vaddr / 4194304 && vaddr / PAGE_SIZE % ENTRIES == vaddr / 4096 % 1024
      ensures vaddr / PAGE_SIZE < ALL_PAGES
    {
    }

    lemma MappedKeepsUsed(s: State, total: nat, r: Request)
      requires Proper(r)
      ensures s.used <= Mapped(s, total, r).used && |Mapped(s, total, r).mem| == |s.mem|
    {
    }

    /** The steps of page_map, each store through the kernel's own directory. */
    method MapOnce(pd: nat, vaddr: nat, paddr: nat, flags: nat) returns (outcome: Outcome)
      requires Valid() && pd in dirs && vaddr < WORD_LIMIT && paddr < WORD_LIMIT && flags < PAGE_SIZE
      modifies ram, frames.words
      ensures frames.Valid()
      ensures var r := Request(pd, vaddr / PAGE_SIZE, paddr / PAGE_SIZE, flags);
              var s := old(State(ram[..], frames.Used()));
              var total := frames.totalFrames;
              && outcome == OutcomeOf(s, total, kd, r)
              && State(ram[..], frames.Used()) ==
                   match outcome
                   case Works => Mapped(s, total, r)
                   case Halts => s.(used := s.used + {Frames.LowestFree(s.used, total)})
                   case Strays(g) => Strayed(s, total, r, g)
    {
      hide Separate, Translate, Window;
      ghost var s := State(ram[..], frames.Used());
      DirInRange(ram[..], frames.Used(), dirs, pd);
      SplitVirtual(vaddr);
      var pde := vaddr / 4194304;
      outcome := Works;
      var table := ram[pd][pde] / PAGE_SIZE;
      if ram[pd][pde] % 2 == 1 {
        TableInRange(ram[..], frames.Used(), dirs, pd, pde);
      } else {
        var cleared;
        cleared, outcome := AddTable(pd, pde, flags);
        if cleared == None {
          return;
        }
        table := cleared.value;
        if table == Frames.LowestFree(s.used, frames.totalFrames) { EntryFields(table, flags); }
      }
      SetEntry(table, vaddr / PAGE_SIZE % ENTRIES, paddr, flags);
    }

    lemma TableInRange(m: Memory, used: set<nat>, ds: set<nat>, pd: nat, pde: nat)
      requires Separate(m, used, ds) && pd in ds && HasTable(m, pd, pde)
      ensures pd < |m| && TableOf(m, pd, pde) < |m|
    {
    }

    /** The last step of page_map: the entry of the page goes into the frame taken for its table. */
    method SetEntry(table: nat, pte: nat, paddr: nat, flags: nat)
      requires pte < ENTRIES && paddr < WORD_LIMIT && flags < PAGE_SIZE
      modifies ram
      ensures ram[..] == if table < ram.Length then Put(old(ram[..]), table, pte, Entry(paddr / PAGE_SIZE, flags))
                         else old(ram[..])
    {
      hide MakeEntry;
      EntryFields(paddr / PAGE_SIZE, flags);
      if table < ram.Length {
        ram[table] := ram[table][pte := MakeEntry(paddr - paddr % PAGE_SIZE, flags)];
      }
    }
  }
}
