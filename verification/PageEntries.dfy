/**
 Page-directory and page-table entries: a frame number in the upper 20 bits, flags
 in the lower 12 (section 4.3 "32-bit paging" of the Intel SDM, Volume 3A).
 */
module PageEntries {
  import opened Words
  import opened Bits

  const PAGE_PRESENT: nat := 1
  const PAGE_WRITE: nat := 2
  const PAGE_USER: nat := 4
  const ALL_PAGES: nat := 1048576      // pages of a 32-bit address space

  predicate Present(e: nat) { e % 2 == 1 }
  function FrameOf(e: nat): nat { e / PAGE_SIZE }
  predicate UserBit(e: nat) { Bit(e, 2) }

  /** frame address | flags | PAGE_PRESENT, as page_map builds both kinds of entry. */
  function MakeEntry(phys: nat, flags: nat): nat {
    BitOr(BitOr(phys, flags), PAGE_PRESENT)
  }

  lemma Pow2Of12()
    ensures Pow2(12) == PAGE_SIZE
  {
    assert Pow2(6) == 64;
  }

  lemma OrOne(x: nat)
    ensures BitOr(x, 1) == if x % 2 == 1 then x else x + 1
  {
  }

  lemma OrPage(f: nat, g: nat, l: nat, m: nat)
    requires l < PAGE_SIZE && m < PAGE_SIZE
    ensures BitOr(f * PAGE_SIZE + l, g * PAGE_SIZE + m) == BitOr(f, g) * PAGE_SIZE + BitOr(l, m)
  {
    Pow2Of12();
    OrParts(f, g, l, m, 12);
  }

  lemma OrOffset(f: nat, l: nat)
    requires l < PAGE_SIZE
    ensures BitOr(f * PAGE_SIZE, l) == f * PAGE_SIZE + l
  {
    OrPage(f, 0, 0, l);
  }

  lemma SplitAddress(f: nat, l: nat)
    requires l < PAGE_SIZE
    ensures (f * PAGE_SIZE + l) / PAGE_SIZE == f && (f * PAGE_SIZE + l) % PAGE_SIZE == l
    ensures l % 2 == 0 ==> (f * PAGE_SIZE + l) % 2 == 0 && (f * PAGE_SIZE + l + 1) / PAGE_SIZE == f
    ensures l % 2 == 1 ==> (f * PAGE_SIZE + l) % 2 == 1
  {
  }

  lemma EntryFields(f: nat, flags: nat)
    requires f < ALL_PAGES && flags < PAGE_SIZE
    ensures var e := MakeEntry(f * PAGE_SIZE, flags);
            Present(e) && FrameOf(e) == f && e < WORD_LIMIT && (UserBit(e) <==> Bit(flags, 2))
  {
    hide BitOr, Bit;
    OrOffset(f, flags);
    OrOne(f * PAGE_SIZE + flags);
    EntryUserBit(f, flags);
    SplitAddress(f, flags);
  }

  lemma LowBitsClear(f: nat)
    ensures !Bit(f * PAGE_SIZE, 2) && !Bit(1, 2)
  {
    assert f * PAGE_SIZE / 2 == 2048 * f;
    assert 2048 * f / 2 == 1024 * f;
    assert Shr(f * PAGE_SIZE, 2) == Shr(2048 * f, 1) == Shr(1024 * f, 0);
    assert Shr(1, 2) == Shr(0, 1) == Shr(0, 0);
  }

  lemma EntryUserBit(f: nat, flags: nat)
    ensures UserBit(MakeEntry(f * PAGE_SIZE, flags)) <==> Bit(flags, 2)
  {
    hide BitOr, Bit;
    BitOfOr(BitOr(f * PAGE_SIZE, flags), 1, 2);
    BitOfOr(f * PAGE_SIZE, flags, 2);
    LowBitsClear(f);
  }

  /**
   The value page_map stores: the frame above, and below it the flags with the present bit set;
   as a number and bit by bit.
   */
  lemma EntryStores(f: nat, flags: nat)
    requires flags < PAGE_SIZE
    ensures MakeEntry(f * PAGE_SIZE, flags) == f * 4096 + flags + (if flags % 2 == 1 then 0 else 1)
    ensures forall k :: 0 <= k < 12 ==> (Bit(MakeEntry(f * PAGE_SIZE, flags), k) <==> k == 0 || Bit(flags, k))
  {
    hide BitOr, Bit, MakeEntry;
    EntryNumber(f, flags);
    forall k | 0 <= k < 12 ensures Bit(MakeEntry(f * PAGE_SIZE, flags), k) <==> k == 0 || Bit(flags, k) {
      EntryBit(f, flags, k);
    }
  }

  lemma EntryNumber(f: nat, flags: nat)
    requires flags < PAGE_SIZE
    ensures MakeEntry(f * PAGE_SIZE, flags) == f * 4096 + flags + (if flags % 2 == 1 then 0 else 1)
  {
    hide BitOr, Bit;
    OrOffset(f, flags);
    OrOne(f * PAGE_SIZE + flags);
    SplitAddress(f, flags);
  }

  lemma EntryBit(f: nat, flags: nat, k: nat)
    requires k < 12
    ensures Bit(MakeEntry(f * PAGE_SIZE, flags), k) <==> k == 0 || Bit(flags, k)
  {
    hide BitOr, Bit;
    BitOfOr(BitOr(f * PAGE_SIZE, flags), 1, k);
    BitOfOr(f * PAGE_SIZE, flags, k);
    Pow2Of12();
    LowBitClear(f, 12, k);
    BitOfOne(k);
  }

  lemma BitOfOne(k: nat)
    ensures Bit(1, k) <==> k == 0
  {
    if k > 0 { ShrZero(k - 1); }
  }

  /** Bits 0, 1 and 2 as numbers: present, writable, user. */
  lemma BitValues(x: nat)
    ensures (Bit(x, 0) <==> x % 2 == 1) && (Bit(x, 1) <==> x / 2 % 2 == 1) && (Bit(x, 2) <==> x / 4 % 2 == 1)
  {
    assert Shr(x, 1) == Shr(x / 2, 0);
    assert Shr(x, 2) == Shr(x / 2, 1) == Shr(x / 2 / 2, 0);
    assert x / 2 / 2 == x / 4;
  }

  lemma EntryFrame(f: nat, flags: nat)
    ensures FrameOf(MakeEntry(f * PAGE_SIZE, flags)) == BitOr(f, flags / PAGE_SIZE)
  {
    Pow2Of12();
    var x := BitOr(f * PAGE_SIZE, flags);
    ShrOr(x, 1, 12);
    ShrOr(f * PAGE_SIZE, flags, 12);
    ShrIsDiv(MakeEntry(f * PAGE_SIZE, flags), 12);
    ShrIsDiv(f * PAGE_SIZE, 12);
    ShrIsDiv(flags, 12);
    ShrIsDiv(1, 12);
    assert f * PAGE_SIZE / PAGE_SIZE == f;
  }

  /**
   The flags argument of page_map must stay in the low 12 bits: an entry keeps the
   frame it was built from, whatever the frame, exactly for such flags.
   */
  lemma FlagsMustFit(flags: nat)
    requires flags < WORD_LIMIT
    ensures (forall f :: 0 <= f < ALL_PAGES ==> FrameOf(MakeEntry(f * PAGE_SIZE, flags)) == f) <==>
            flags < PAGE_SIZE
  {
    EntryFrame(0, flags);
    if flags < PAGE_SIZE {
      forall f | 0 <= f < ALL_PAGES ensures FrameOf(MakeEntry(f * PAGE_SIZE, flags)) == f {
        EntryFrame(f, flags);
      }
    } else {
      assert BitOr(0, flags / PAGE_SIZE) == flags / PAGE_SIZE > 0;
      assert FrameOf(MakeEntry(0 * PAGE_SIZE, flags)) != 0;
    }
  }

  // ---------------------------------------------------------------- repeated OR

  /** The values a kernel directory entry takes once it is present: kernel-only or user. */
  function DirEntry(table: nat, user: bool): nat {
    table * PAGE_SIZE + (if user then 7 else 3)
  }

  /** What identity_map_page ORs into a directory entry. */
  function DirUpdate(table: nat, user: bool): nat {
    BitOr(BitOr(BitOr(table * PAGE_SIZE, PAGE_PRESENT), PAGE_WRITE), if user then PAGE_USER else 0)
  }

  lemma DirUpdateIsEntry(table: nat, user: bool)
    ensures DirUpdate(table, user) == DirEntry(table, user)
  {
    OrOffset(table, 1);
    OrPage(table, 0, 1, 2);
    OrPage(table, 0, 3, 4);
    SmallOrs();
  }

  lemma SmallOrs()
    ensures BitOr(1, 2) == 3 && BitOr(3, 4) == 7
    ensures BitOr(3, 3) == 3 && BitOr(3, 7) == 7 && BitOr(7, 3) == 7 && BitOr(7, 7) == 7
  {
  }

  /** Repeated OR updates keep the table and only ever add the user bit. */
  lemma DirEntryOr(table: nat, prior: nat, was: bool, user: bool)
    requires prior == 0 || prior == DirEntry(table, was)
    ensures BitOr(prior, DirUpdate(table, user)) == DirEntry(table, user || (prior != 0 && was))
  {
    DirUpdateIsEntry(table, user);
    if prior != 0 {
      OrPage(table, table, if was then 7 else 3, if user then 7 else 3);
      OrSelf(table);
      SmallOrs();
    }
  }
}
