/**
 The kernel's own page directory: identity mapping and user ranges.
 */
module KernelPaging {
  import opened Words
  import opened Bits
  import opened PageEntries
  import opened AddressSpace
  import opened PagingRuns

  const TABLES: nat := 32              // IDENTITY_TABLES: 128 MiB in 4 MiB tables
  const MAP_PAGES: nat := 32768        // pages below IDENTITY_MAP_BYTES

  // ---------------------------------------------------------------- what the tables must contain

  /** Some page of S lies beneath directory entry i. */
  ghost predicate Beneath(S: set<nat>, i: nat) {
    exists p :: p in S && p / ENTRIES == i
  }

  ghost function DirWord(tb: nat, mapped: set<nat>, user: set<nat>, i: nat): nat {
    if i < TABLES && Beneath(mapped, i) then DirEntry(tb + i, Beneath(user, i)) else 0
  }

  function PageWord(mapped: set<nat>, user: set<nat>, p: nat): nat {
    if p in user then p * PAGE_SIZE + 7 else if p in mapped then p * PAGE_SIZE + 3 else 0
  }

  /** The table entry of page p when the tables start at frame tb. */
  function PageEntryAt(m: Memory, tb: nat, p: nat): Word
    requires tb + TABLES <= |m| && p < MAP_PAGES
  {
    m[tb + p / ENTRIES][p % ENTRIES]
  }

  /**
   Directory at frame kd, tables at frames tb .. tb + 31: exactly the pages in
   `mapped` are present, each onto itself, and exactly those in `user` carry the user bit.
   */
  ghost predicate Tables(m: Memory, kd: nat, tb: nat, mapped: set<nat>, user: set<nat>) {
    && kd < |m| && tb + TABLES <= |m| <= ALL_PAGES && !(tb <= kd < tb + TABLES)
    && user <= mapped && (forall p :: p in mapped ==> p < MAP_PAGES)
    && (forall i :: 0 <= i < ENTRIES ==> m[kd][i] == DirWord(tb, mapped, user, i))
    && (forall p :: 0 <= p < MAP_PAGES ==> PageEntryAt(m, tb, p) == PageWord(mapped, user, p))
  }

  /** Each page translates to itself or is not present, and the user bits are where they should be. */
  lemma TablesMean(m: Memory, kd: nat, tb: nat, mapped: set<nat>, user: set<nat>, p: nat)
    requires Tables(m, kd, tb, mapped, user) && p < ALL_PAGES
    ensures Translate(m, kd, p) == if p in mapped then Some(p) else None
    ensures p in mapped ==>
              && TableOf(m, kd, p / ENTRIES) == tb + p / ENTRIES
              && (UserBit(m[tb + p / ENTRIES][p % ENTRIES]) <==> p in user)
    ensures UserBit(m[kd][p / ENTRIES]) <==> exists q :: q in user && q / ENTRIES == p / ENTRIES
    // a present page is writable at both levels, and the words carry no other flag
    ensures p in mapped ==>
              && Bit(m[kd][p / ENTRIES], 1) && Bit(m[tb + p / ENTRIES][p % ENTRIES], 1)
              && m[kd][p / ENTRIES] / 8 * 8 == (tb + p / ENTRIES) * 4096
              && m[tb + p / ENTRIES][p % ENTRIES] / 8 * 8 == p * 4096
  {
    hide Translate, Bit, UserBit, FrameOf, Present;
    WordsMean(m, kd, tb, mapped, user, p);
    WalkMeans(m, kd, tb, mapped, user, p);
    var i := p / ENTRIES;
    EntryBits(tb + i);
    EntryBits(p);
    NoBits();
    assert Beneath(user, i) <==> exists q :: q in user && q / ENTRIES == i;
  }

  lemma NoBits()
    ensures !UserBit(0) && !Present(0)
  {
    assert Shr(0, 2) == Shr(0, 1) == Shr(0, 0);
  }

  /** The two words on the way to page p. */
  lemma WordsMean(m: Memory, kd: nat, tb: nat, mapped: set<nat>, user: set<nat>, p: nat)
    requires Tables(m, kd, tb, mapped, user) && p < ALL_PAGES
    ensures var i := p / ENTRIES;
            && m[kd][i] ==
                 (if Beneath(mapped, i) then (tb + i) * PAGE_SIZE + (if Beneath(user, i) then 7 else 3) else 0)
            && (p in mapped ==> p < MAP_PAGES && Beneath(mapped, i) && (p in user ==> Beneath(user, i)))
            && (Beneath(mapped, i) ==> i < TABLES) && (Beneath(user, i) ==> Beneath(mapped, i))
            && (p < MAP_PAGES ==>
                  m[tb + i][p % ENTRIES] ==
                    if p in user then p * PAGE_SIZE + 7 else if p in mapped then p * PAGE_SIZE + 3 else 0)
  {
    var i := p / ENTRIES;
    BeneathSubset(user, mapped, i);
    if p in mapped { assert Beneath(mapped, i); }
    if p in user { assert Beneath(user, i); }
    if p < MAP_PAGES {
      assert PageEntryAt(m, tb, p) == PageWord(mapped, user, p);
    }
    assert i >= TABLES ==> !Beneath(mapped, i);
  }

  lemma WalkMeans(m: Memory, kd: nat, tb: nat, mapped: set<nat>, user: set<nat>, p: nat)
    requires Tables(m, kd, tb, mapped, user) && p < ALL_PAGES
    ensures Translate(m, kd, p) == if p in mapped then Some(p) else None
    ensures Beneath(mapped, p / ENTRIES) ==> TableOf(m, kd, p / ENTRIES) == tb + p / ENTRIES
  {
    hide Tables, Beneath, Bit;
    var i := p / ENTRIES;
    WordsMean(m, kd, tb, mapped, user, p);
    TablesRange(m, kd, tb, mapped, user);
    UserIsMapped(m, kd, tb, mapped, user, p);
    EntryBits(tb + i);
    EntryBits(p);
    if Beneath(mapped, i) {
      assert p < MAP_PAGES && HasTable(m, kd, i) && TableOf(m, kd, i) == tb + i;
    } else {
      assert !HasTable(m, kd, i);
    }
  }

  lemma TablesRange(m: Memory, kd: nat, tb: nat, mapped: set<nat>, user: set<nat>)
    requires Tables(m, kd, tb, mapped, user)
    ensures kd < |m| && tb + TABLES <= |m| <= ALL_PAGES
  {
  }

  /** User code may write to a page, at both levels, exactly if it is a user page. */
  lemma UserPagesMean(m: Memory, kd: nat, tb: nat, mapped: set<nat>, user: set<nat>, p: nat)
    requires Tables(m, kd, tb, mapped, user) && p < ALL_PAGES
    ensures UserMayWrite(m, kd, p) <==> p in user
  {
    hide Tables, Beneath, Bit;
    WordsMean(m, kd, tb, mapped, user, p);
    WalkMeans(m, kd, tb, mapped, user, p);
    TablesRange(m, kd, tb, mapped, user);
    EntryBits(tb + p / ENTRIES);
    EntryBits(p);
    NothingBits();
    UserIsMapped(m, kd, tb, mapped, user, p);
  }

  lemma UserIsMapped(m: Memory, kd: nat, tb: nat, mapped: set<nat>, user: set<nat>, p: nat)
    requires Tables(m, kd, tb, mapped, user)
    ensures p in user ==> p in mapped
  {
  }

  lemma NothingBits()
    ensures forall k :: 0 <= k < 12 ==> !Bit(0, k)
  {
    forall k: nat | k < 12 ensures !Bit(0, k) { ShrZero(k); }
  }

  lemma BeneathSubset(S: set<nat>, R: set<nat>, i: nat)
    requires S <= R
    ensures Beneath(S, i) ==> Beneath(R, i)
  {
    if Beneath(S, i) {
      var q :| q in S && q / ENTRIES == i;
      assert q in R;
    }
  }

  lemma EntryBits(f: nat)
    ensures Present(f * PAGE_SIZE + 3) && Present(f * PAGE_SIZE + 7)
    ensures FrameOf(f * PAGE_SIZE + 3) == f == FrameOf(f * PAGE_SIZE + 7)
    ensures !UserBit(f * PAGE_SIZE + 3) && UserBit(f * PAGE_SIZE + 7)
    ensures forall x :: x == f * PAGE_SIZE + 3 || x == f * PAGE_SIZE + 7 ==> Bit(x, 0) && Bit(x, 1)
    ensures !Bit(f * PAGE_SIZE + 3, 2) && Bit(f * PAGE_SIZE + 7, 2)
    ensures (f * PAGE_SIZE + 3) / 8 * 8 == f * 4096 == (f * PAGE_SIZE + 7) / 8 * 8
  {
    hide Bit;
    OneEntry(f, 3);
    OneEntry(f, 7);
  }

  lemma OneEntry(f: nat, l: nat)
    requires l == 3 || l == 7
    ensures var x := f * PAGE_SIZE + l;
            && x % 2 == 1 && x / PAGE_SIZE == f && Bit(x, 0) && Bit(x, 1) && (Bit(x, 2) <==> l == 7)
            && x / 8 * 8 == f * 4096
  {
    hide Bit;
    SplitAddress(f, l);
    BitValues(f * PAGE_SIZE + l);
    Halves(f, l);
    OddHalves(f, l);
  }

  lemma OddHalves(f: nat, l: nat)
    requires l == 3 || l == 7
    ensures (2048 * f + l / 2) % 2 == 1 && ((1024 * f + l / 4) % 2 == 1 <==> l == 7)
  {
    assert 2048 * f == 2 * (1024 * f) && 1024 * f == 2 * (512 * f);
    Parity(1024 * f, if l == 3 then 0 else 1);
    Parity(512 * f, 0);
    assert l / 2 == 1 + 2 * (if l == 3 then 0 else 1) && l / 4 == if l == 3 then 0 else 1;
  }

  lemma Parity(a: nat, b: nat)
    ensures (2 * a + 2 * b) % 2 == 0 && (2 * a + 2 * b + 1) % 2 == 1
  {
  }

  lemma Halves(f: nat, l: nat)
    requires l == 3 || l == 7
    ensures (f * PAGE_SIZE + l) / 2 == 2048 * f + l / 2
    ensures (f * PAGE_SIZE + l) / 4 == 1024 * f + l / 4
    ensures (f * PAGE_SIZE + l) / 8 == 512 * f
  {
  }

  /** The page table behind entry i of the kernel directory. */
  lemma KernelTable(m: Memory, kd: nat, tb: nat, mapped: set<nat>, user: set<nat>, i: nat)
    requires Tables(m, kd, tb, mapped, user) && HasTable(m, kd, i)
    ensures i < TABLES && TableOf(m, kd, i) == tb + i
  {
    hide Beneath, PageWord;
    assert m[kd][i] == DirWord(tb, mapped, user, i);
    EntryBits(tb + i);
  }

  /**
   The kernel directory meets the invariant page_map runs on, as soon as the frames of
   the kernel image are in use: each entry has its own table and no table is the directory.
   */
  lemma KernelTablesAreSeparate(m: Memory, kd: nat, tb: nat, mapped: set<nat>, user: set<nat>, used: set<nat>)
    requires Tables(m, kd, tb, mapped, user)
    requires kd in used && forall i :: tb <= i < tb + TABLES ==> i in used
    ensures Separate(m, used, {kd})
  {
    hide DirWord, PageWord, PageEntryAt;
    forall i: nat | HasTable(m, kd, i) ensures i < TABLES && TableOf(m, kd, i) == tb + i {
      KernelTable(m, kd, tb, mapped, user, i);
    }
  }

  // ---------------------------------------------------------------- one identity_map_page

  function PageUpdate(p: nat, user: bool): nat {
    BitOr(BitOr(p * PAGE_SIZE, PAGE_PRESENT), if user then 6 else 2)
  }

  lemma PageUpdateIsEntry(p: nat, user: bool)
    ensures PageUpdate(p, user) == p * PAGE_SIZE + (if user then 7 else 3)
  {
    OrOffset(p, 1);
    OrPage(p, 0, 1, if user then 6 else 2);
    assert BitOr(1, 2) == 3 && BitOr(1, 6) == 7;
  }

  /** The memory identity_map_page leaves behind. */
  ghost predicate PageMapped(m: Memory, m': Memory, kd: nat, tb: nat, p: nat, user: bool)
    requires kd < |m| && tb + TABLES <= |m| && p < MAP_PAGES
  {
    var i, j := p / ENTRIES, p % ENTRIES;
    var d := BitOr(m[kd][i], DirUpdate(tb + i, user));
    && d < WORD_LIMIT && PageUpdate(p, user) < WORD_LIMIT
    && m' == Put(Put(m, kd, i, d), tb + i, j, PageUpdate(p, user))
  }

  /** Directory entry x after one page more. */
  lemma MapStepDir(m: Memory, m': Memory, kd: nat, tb: nat, mapped: set<nat>, users: set<nat>, p: nat, user: bool,
                   x: nat)
    requires Tables(m, kd, tb, mapped, users) && p < MAP_PAGES && x < ENTRIES
    requires PageMapped(m, m', kd, tb, p, user)
    ensures |m'| == |m| && m'[kd][x] == DirWord(tb, mapped + {p}, if user then users + {p} else users, x)
  {
    hide Beneath, DirUpdate, PageUpdate, DirEntry, BitOr, PageWord, PageEntryAt;
    if x == p / ENTRIES {
      DirStep(m, kd, tb, mapped, users, p, user);
    } else {
      BeneathOther(mapped, p, x);
      BeneathOther(users, p, x);
    }
  }

  /** The table entry of page q after page p was mapped. */
  lemma MapStepPage(m: Memory, m': Memory, kd: nat, tb: nat, mapped: set<nat>, users: set<nat>, p: nat, user: bool,
                    q: nat)
    requires Tables(m, kd, tb, mapped, users) && p < MAP_PAGES && (user || p !in users) && q < MAP_PAGES
    requires PageMapped(m, m', kd, tb, p, user)
    ensures |m'| == |m| && PageEntryAt(m', tb, q) == PageWord(mapped + {p}, if user then users + {p} else users, q)
  {
    hide DirWord, DirUpdate, PageUpdate, BitOr;
    assert PageEntryAt(m, tb, q) == PageWord(mapped, users, q);
    PageUpdateIsEntry(p, user);
    if q != p {
      OtherPage(p, q);
    }
  }

  lemma OtherPage(p: nat, q: nat)
    requires p != q
    ensures q / ENTRIES != p / ENTRIES || q % ENTRIES != p % ENTRIES
  {
    assert p == p / ENTRIES * ENTRIES + p % ENTRIES && q == q / ENTRIES * ENTRIES + q % ENTRIES;
  }

  lemma MapStep(m: Memory, m': Memory, kd: nat, tb: nat, mapped: set<nat>, users: set<nat>, p: nat, user: bool)
    requires Tables(m, kd, tb, mapped, users) && p < MAP_PAGES && (user || p !in users)
    requires PageMapped(m, m', kd, tb, p, user)
    ensures Tables(m', kd, tb, mapped + {p}, if user then users + {p} else users)
  {
    hide DirWord, PageWord, PageEntryAt, PageMapped;
    var mapped', users' := mapped + {p}, if user then users + {p} else users;
    MapStepDir(m, m', kd, tb, mapped, users, p, user, 0);
    forall x | 0 <= x < ENTRIES ensures m'[kd][x] == DirWord(tb, mapped', users', x) {
      MapStepDir(m, m', kd, tb, mapped, users, p, user, x);
    }
    forall q | 0 <= q < MAP_PAGES ensures PageEntryAt(m', tb, q) == PageWord(mapped', users', q) {
      MapStepPage(m, m', kd, tb, mapped, users, p, user, q);
    }
  }

  lemma BeneathOther(S: set<nat>, p: nat, x: nat)
    requires x != p / ENTRIES
    ensures Beneath(S + {p}, x) <==> Beneath(S, x)
  {
  }

  lemma DirStep(m: Memory, kd: nat, tb: nat, mapped: set<nat>, users: set<nat>, p: nat, user: bool)
    requires Tables(m, kd, tb, mapped, users) && p < MAP_PAGES
    ensures var i := p / ENTRIES;
            BitOr(m[kd][i], DirUpdate(tb + i, user)) ==
              DirWord(tb, mapped + {p}, if user then users + {p} else users, i)
  {
    var i := p / ENTRIES;
    hide DirUpdate, BitOr, PageWord;
    DirEntryOr(tb + i, m[kd][i], Beneath(users, i), user);
    assert p in mapped + {p};
    assert Beneath(mapped + {p}, i);
    if user {
      assert p in users + {p};
      assert Beneath(users + {p}, i);
    }
    BeneathSubset(users, mapped, i);
  }

  // ---------------------------------------------------------------- ranges

  /** Page p is visited by paging_mark_user_range(phys, size), with its 32-bit sum. */
  predicate Covers(phys: nat, size: nat, p: nat) {
    size != 0 && phys - phys % PAGE_SIZE <= p * PAGE_SIZE < AlignUp32((phys + size) % WORD_LIMIT, PAGE_SIZE)
  }

  /** Short of a wrap, the pages visited are those that share a byte with the range. */
  lemma CoversIsOverlap(phys: nat, size: nat, p: nat)
    requires phys + size + PAGE_SIZE <= WORD_LIMIT
    ensures Covers(phys, size, p) <==> size > 0 && phys < (p + 1) * PAGE_SIZE && p * PAGE_SIZE < phys + size
  {
    var sum := phys + size + PAGE_SIZE - 1;
    assert AlignUp32((phys + size) % WORD_LIMIT, PAGE_SIZE) == sum - sum % PAGE_SIZE;
  }

  ghost function PagesIn(lo: nat, hi: nat): set<nat> {
    set p | 0 <= p < MAP_PAGES && lo <= p * PAGE_SIZE < hi
  }

  lemma PagesInStep(lo: nat, addr: nat)
    requires addr % PAGE_SIZE == 0 && lo <= addr
    ensures PagesIn(lo, addr + PAGE_SIZE) ==
            PagesIn(lo, addr) + (if addr / PAGE_SIZE < MAP_PAGES then {addr / PAGE_SIZE} else {})
  {
    var q := addr / PAGE_SIZE;
    assert q * PAGE_SIZE == addr;
    forall p | p in PagesIn(lo, addr + PAGE_SIZE) && p != q ensures p in PagesIn(lo, addr) {
      assert p * PAGE_SIZE < (q + 1) * PAGE_SIZE;
    }
  }

  lemma NoPages(lo: nat, hi: nat)
    requires hi <= lo
    ensures PagesIn(lo, hi) == {}
  {
  }

  datatype Range = Range(phys: nat, size: nat)

  ghost predicate Marked(marks: seq<Range>, p: nat) {
    exists k :: 0 <= k < |marks| && Covers(marks[k].phys, marks[k].size, p)
  }

  /** Pages below 128 MiB covered by one of the marked ranges. */
  ghost function UserPages(marks: seq<Range>): set<nat> {
    set p | 0 <= p < MAP_PAGES && Marked(marks, p)
  }

  /** Pages identity-mapped at boot or marked since. */
  ghost function MappedPages(identityBytes: nat, marks: seq<Range>): set<nat> {
    PagesIn(0, identityBytes) + UserPages(marks)
  }

  lemma MarkOne(marks: seq<Range>, r: Range)
    requires r.size != 0
    ensures UserPages(marks + [r]) ==
            UserPages(marks) +
            PagesIn(r.phys - r.phys % PAGE_SIZE, AlignUp32((r.phys + r.size) % WORD_LIMIT, PAGE_SIZE))
  {
    var more := marks + [r];
    forall p | p in UserPages(marks) ensures p in UserPages(more) {
      var k :| 0 <= k < |marks| && Covers(marks[k].phys, marks[k].size, p);
      assert more[k] == marks[k];
    }
    var added := PagesIn(r.phys - r.phys % PAGE_SIZE, AlignUp32((r.phys + r.size) % WORD_LIMIT, PAGE_SIZE));
    forall p | p in added ensures p in UserPages(more) {
      assert more[|marks|] == r;
    }
    forall p | p in UserPages(more) ensures p in UserPages(marks) || p in added {
      var k :| 0 <= k < |more| && Covers(more[k].phys, more[k].size, p);
      if k < |marks| { assert more[k] == marks[k]; }
    }
  }

  lemma MarkEmpty(marks: seq<Range>, r: Range)
    requires r.size == 0
    ensures UserPages(marks + [r]) == UserPages(marks)
  {
    var more := marks + [r];
    forall p | p in UserPages(marks) ensures p in UserPages(more) {
      var k :| 0 <= k < |marks| && Covers(marks[k].phys, marks[k].size, p);
      assert more[k] == marks[k];
    }
    forall p | p in UserPages(more) ensures p in UserPages(marks) {
      var k :| 0 <= k < |more| && Covers(more[k].phys, more[k].size, p);
      assert k < |marks| && more[k] == marks[k];
    }
  }

  // ---------------------------------------------------------------- the kernel directory

  class KernelSpace {
    const ram: array<Page>
    const kd: nat                      // frame of g_page_directory
    const tb: nat                      // first frame of g_page_tables
    ghost var identityBytes: nat       // extent of identity_map_range at boot
    ghost var marks: seq<Range>        // the ranges marked so far

    ghost predicate Valid()
      reads this, ram
    {
      Tables(ram[..], kd, tb, MappedPages(identityBytes, marks), UserPages(marks))
    }

    /**
     After boot and any run of paging_mark_user_range: a page translates to itself or
     is absent, it carries the user bit exactly when a marked range covers it, and a
     directory entry carries it exactly when some marked page lies beneath.
     */
    lemma SpaceMeans(p: nat)
      requires Valid() && p < ALL_PAGES
      ensures Translate(ram[..], kd, p) ==
              if p < MAP_PAGES && (p * PAGE_SIZE < identityBytes || Marked(marks, p)) then Some(p) else None
      ensures Translate(ram[..], kd, p) == Some(p) ==>
                && tb + p / ENTRIES < ram.Length && TableOf(ram[..], kd, p / ENTRIES) == tb + p / ENTRIES
                && (UserBit(ram[tb + p / ENTRIES][p % ENTRIES]) <==> Marked(marks, p))
      ensures kd < ram.Length
      ensures UserBit(ram[kd][p / ENTRIES]) <==>
              exists q :: q in UserPages(marks) && q / ENTRIES == p / ENTRIES
      ensures Translate(ram[..], kd, p) == Some(p) ==>
                Bit(ram[kd][p / ENTRIES], 1) && Bit(ram[tb + p / ENTRIES][p % ENTRIES], 1)
      // user code may write to exactly the pages below 128 MiB that a marked range covers
      ensures UserMayWrite(ram[..], kd, p) <==> p < MAP_PAGES && Marked(marks, p)
    {
      hide Tables, Bit, UserMayWrite, Translate;
      SpaceRange();
      TablesMean(ram[..], kd, tb, MappedPages(identityBytes, marks), UserPages(marks), p);
      UserPagesMean(ram[..], kd, tb, MappedPages(identityBytes, marks), UserPages(marks), p);
    }

    lemma SpaceRange()
      requires Valid()
      ensures kd < ram.Length && tb + TABLES <= ram.Length <= ALL_PAGES
      ensures forall p :: p in MappedPages(identityBytes, marks) ==> p < MAP_PAGES
    {
    }

    /**
     A frame the kernel can address once paging is on: below 128 MiB, and identity-mapped
     at boot or marked since.
     */
    lemma FrameReached(t: nat)
      requires Valid() && t < ALL_PAGES
      ensures Reaches(ram[..], kd, t) <==> t < MAP_PAGES && (t * PAGE_SIZE < identityBytes || Marked(marks, t))
    {
      SpaceMeans(t);
    }

    /** After boot the pages present in the kernel's directory are exactly the frames below 128 MiB. */
    lemma BootBoundary(z: Setting)
      requires Valid() && z.total <= ALL_PAGES && z.kd == kd
      requires identityBytes == if z.total > MAP_PAGES then MAP_PAGES * PAGE_SIZE else z.total * PAGE_SIZE
      ensures Boundary(ram[..], z, MAP_PAGES)
    {
      hide Tables, Translate;
      forall t: nat | t < z.total ensures Translate(ram[..], kd, t) == if t < MAP_PAGES then Some(t) else None {
        SpaceMeans(t);
      }
    }

    /** The kernel directory and its tables lie in the window they map. */
    lemma BootWindow(z: Setting)
      requires Valid() && Boundary(ram[..], z, MAP_PAGES) && z.total <= ALL_PAGES && z.kd == kd
      requires kd < z.total && kd < MAP_PAGES && tb + TABLES <= z.total && tb + TABLES <= MAP_PAGES
      ensures Window(ram[..], kd, {kd}, z.total)
    {
      hide Tables, Translate;
      forall f: nat | IsTable(ram[..], {kd}, f) ensures f < z.total && Reaches(ram[..], kd, f) {
        var d, i := TableSite(ram[..], {kd}, f);
        KernelTable(ram[..], kd, tb, MappedPages(identityBytes, marks), UserPages(marks), i);
      }
    }

    /** Beyond 128 MiB the kernel's directory has no page tables. */
    lemma NoTableAbove(i: nat)
      requires Valid() && i >= TABLES
      ensures !HasTable(ram[..], kd, i)
    {
      hide Tables;
      if HasTable(ram[..], kd, i) {
        KernelTable(ram[..], kd, tb, MappedPages(identityBytes, marks), UserPages(marks), i);
      }
    }

    method IdentityMapPage(phys: nat, flags: nat, ghost mapped: set<nat>, ghost users: set<nat>)
      requires Tables(ram[..], kd, tb, mapped, users) && phys < WORD_LIMIT
      requires flags == PAGE_WRITE || flags == PAGE_WRITE + PAGE_USER
      requires flags == PAGE_WRITE ==> phys / PAGE_SIZE !in users
      modifies ram
      ensures var p := phys / PAGE_SIZE;
              if p >= MAP_PAGES then Tables(ram[..], kd, tb, mapped, users)
              else Tables(ram[..], kd, tb, mapped + {p}, if flags == PAGE_WRITE then users else users + {p})
    {
      hide Tables, PageUpdate, DirUpdate, BitOr;
      if phys >= 134217728 {
        return;
      }
      SplitPhysical(phys);
      var pde := phys / 4194304;
      var pte := phys / 4096 % 1024;
      var user := flags != PAGE_WRITE;
      InRange(ram[..], mapped, users, phys / PAGE_SIZE, user);
      ghost var m := ram[..];
      WriteEntries(pde, pte, BitOr(ram[kd][pde], DirUpdate(tb + pde, user)), PageUpdate(phys / PAGE_SIZE, user));
      MapStep(m, ram[..], kd, tb, mapped, users, phys / PAGE_SIZE, user);
    }

    lemma SplitPhysical(phys: nat)
      requires phys < 134217728
      ensures phys / PAGE_SIZE < MAP_PAGES && phys / 4194304 == phys / PAGE_SIZE / ENTRIES < TABLES
      ensures phys / 4096 % 1024 == phys / PAGE_SIZE % ENTRIES
    {
    }

    /** The two stores of identity_map_page, directory entry first. */
    method WriteEntries(pde: nat, pte: nat, d: Word, w: Word)
      requires kd < ram.Length && tb + TABLES <= ram.Length && pde < TABLES && pte < ENTRIES && kd != tb + pde
      modifies ram
      ensures ram[..] == Put(Put(old(ram[..]), kd, pde, d), tb + pde, pte, w)
    {
      ram[kd] := ram[kd][pde := d];
      ram[tb + pde] := ram[tb + pde][pte := w];
    }

    lemma InRange(m: Memory, mapped: set<nat>, users: set<nat>, p: nat, user: bool)
      requires Tables(m, kd, tb, mapped, users) && p < MAP_PAGES
      ensures kd < |m| && tb + TABLES <= |m| && !(tb <= kd < tb + TABLES)
      ensures BitOr(m[kd][p / ENTRIES], DirUpdate(tb + p / ENTRIES, user)) < WORD_LIMIT
      ensures PageUpdate(p, user) < WORD_LIMIT
    {
      DirStep(m, kd, tb, mapped, users, p, user);
      PageUpdateIsEntry(p, user);
    }

    /** The page loop shared by identity_map_range and paging_mark_user_range. */
    method MapPages(start: nat, end: nat, flags: nat, ghost mapped: set<nat>, ghost users: set<nat>)
      requires Tables(ram[..], kd, tb, mapped, users)
      requires start % PAGE_SIZE == 0 && end % PAGE_SIZE == 0 && end < WORD_LIMIT
      requires flags == PAGE_WRITE || flags == PAGE_WRITE + PAGE_USER
      requires flags == PAGE_WRITE ==> users == {}
      modifies ram
      ensures Tables(ram[..], kd, tb, mapped + PagesIn(start, end),
                     if flags == PAGE_WRITE then users else users + PagesIn(start, end))
    {
      hide Tables, PagesIn;
      NoPages(start, start);
      if end <= start { NoPages(start, end); }
      var addr := start;
      assert mapped + {} == mapped && users + {} == users;
      while addr < end
        invariant addr % PAGE_SIZE == 0 && start <= addr && (addr == start || addr <= end)
        invariant Tables(ram[..], kd, tb, mapped + PagesIn(start, addr),
                         if flags == PAGE_WRITE then users else users + PagesIn(start, addr))
      {
        NextPage(addr, end);
        ghost var before := PagesIn(start, addr);
        IdentityMapPage(addr, flags, mapped + before, if flags == PAGE_WRITE then users else users + before);
        PagesInStep(start, addr);
        ghost var p := addr / PAGE_SIZE;
        assert mapped + (before + {p}) == mapped + before + {p};
        assert users + (before + {p}) == users + before + {p};
        assert before + {} == before;
        addr := addr + PAGE_SIZE;
      }
    }

    method MarkUserRange(phys: nat, size: nat)
      requires Valid() && phys < WORD_LIMIT && size < WORD_LIMIT
      modifies ram, this`marks
      ensures Valid() && marks == old(marks) + [Range(phys, size)]
    {
      hide Tables, UserPages, PagesIn;
      if size == 0 {
        MarkEmpty(marks, Range(phys, size));
        marks := marks + [Range(phys, size)];
        return;
      }
      var start := phys - phys % PAGE_SIZE;
      var end := AlignUp32((phys + size) % WORD_LIMIT, PAGE_SIZE);
      ghost var sum := ((phys + size) % WORD_LIMIT + PAGE_SIZE - 1) % WORD_LIMIT;
      RoundDown(phys);
      RoundDown(sum);
      MarkOne(marks, Range(phys, size));
      ghost var low := PagesIn(0, identityBytes);
      MapPages(start, end, PAGE_WRITE + PAGE_USER, MappedPages(identityBytes, marks), UserPages(marks));
      assert low + UserPages(marks) + PagesIn(start, end) == low + (UserPages(marks) + PagesIn(start, end));
      marks := marks + [Range(phys, size)];
    }

    constructor (memory: array<Page>, directory: nat, tables: nat)
      requires directory < memory.Length && tables + TABLES <= memory.Length <= ALL_PAGES
      requires !(tables <= directory < tables + TABLES)
      ensures ram == memory && kd == directory && tb == tables
    {
      ram, kd, tb := memory, directory, tables;
      identityBytes, marks := 0, [];
    }

    /** memset over g_page_directory and g_page_tables. */
    method ClearTables()
      requires kd < ram.Length && tb + TABLES <= ram.Length <= ALL_PAGES && !(tb <= kd < tb + TABLES)
      modifies ram
      ensures Tables(ram[..], kd, tb, {}, {})
    {
      ram[kd] := ZeroPage();
      var n := 0;
      while n < TABLES
        invariant 0 <= n <= TABLES && ram[kd] == ZeroPage()
        invariant forall i :: tb <= i < tb + n ==> ram[i] == ZeroPage()
      {
        ram[tb + n] := ZeroPage();
        n := n + 1;
      }
      assert forall i :: !Beneath({}, i);
    }

    /**
     The paging half of memory_init: identity-map what is below both the memory size
     and 128 MiB, then open the user program area and the user stack.
     */
    method InitPaging(totalBytes: nat, userBase: nat, userSize: nat, stackBase: nat, stackSize: nat)
      requires kd < ram.Length && tb + TABLES <= ram.Length <= ALL_PAGES && !(tb <= kd < tb + TABLES)
      requires totalBytes < WORD_LIMIT && totalBytes % PAGE_SIZE == 0
      requires userBase < WORD_LIMIT && userSize < WORD_LIMIT && stackBase < WORD_LIMIT && stackSize < WORD_LIMIT
      modifies ram, this
      ensures Valid() && marks == [Range(userBase, userSize), Range(stackBase, stackSize)]
      ensures identityBytes == if totalBytes > 134217728 then 134217728 else totalBytes
    {
      hide Tables, PagesIn, UserPages;
      ClearTables();
      var bytes := if totalBytes > 134217728 then 134217728 else totalBytes;
      IdentityMapRange(0, bytes);
      identityBytes, marks := bytes, [];
      NothingMarked();
      assert PagesIn(0, bytes) == PagesIn(0, bytes) + {};
      MarkUserRange(userBase, userSize);
      MarkUserRange(stackBase, stackSize);
    }

    lemma NothingMarked()
      ensures UserPages([]) == {}
    {
    }

    lemma PagesStopAtLimit(size: nat)
      requires size > 134217728
      ensures PagesIn(0, size) == PagesIn(0, 134217728)
    {
    }

    /** identity_map_range(start, size, PAGE_WRITE) on cleared tables, short of a wrap. */
    method IdentityMapRange(startPhys: nat, size: nat)
      requires Tables(ram[..], kd, tb, {}, {}) && startPhys == 0 && size < WORD_LIMIT && size % PAGE_SIZE == 0
      modifies ram
      ensures Tables(ram[..], kd, tb, PagesIn(0, size), {})
    {
      hide Tables, PagesIn;
      assert {} + PagesIn(0, size) == PagesIn(0, size);
      if size == 0 {
        NoPages(0, 0);
        return;
      }
      var start := startPhys - startPhys % PAGE_SIZE;
      var end := AlignUp32((startPhys + size) % WORD_LIMIT, PAGE_SIZE);
      if end > 134217728 {
        end := 134217728;
        PagesStopAtLimit(size);
      }
      MapPages(start, end, PAGE_WRITE, {}, {});
    }
  }
}
