/** Two-level page tables reached through the recursive directory slot. */
module Paging {
  import opened Words
  import opened Hardware
  import opened Pmm

  const RECURSIVE_INDEX: nat := 1023
  const RECURSIVE_TABLES_BASE: Word := 0xFFC0_0000

  /** Pages below the recursive window. */
  const WINDOW: nat := 1023 * 1024

  /** The window page that shows the table of directory slot pdi. */
  function WindowPage(pdi: nat): (p: nat)
    requires pdi < 1024
    ensures p < FRAME_COUNT && p / 1024 == 1023 && p % 1024 == pdi
  {
    0xF_FC00 + pdi
  }

  /** The directory entry for a table in frame t: present and writable. */
  function TableEntry(t: nat): (w: Word)
    requires t < FRAME_COUNT
    ensures Present(w) && Target(w) == t
  {
    t * 0x1000 + 3
  }

  /** The virtual address of the page table of directory slot pdi. */
  function PageTableVirtual(pdi: nat): Word
    requires pdi < 1024
  {
    RECURSIVE_TABLES_BASE + pdi * 0x1000
  }

  /** `(physical & 0xFFFFF000) | (flags & 0xFFF)` */
  function MakeEntry(physical: Word, flags: Word): Word {
    physical / 0x1000 * 0x1000 + flags % 0x1000
  }

  /** The directory holds a table for slot pdi. */
  predicate HasTable(mem: Memory, dir: nat, pdi: nat)
    requires dir < FRAME_COUNT && pdi < 1024
  {
    Present(mem[dir][pdi])
  }

  function TableOf(mem: Memory, dir: nat, pdi: nat): (f: nat)
    requires dir < FRAME_COUNT && pdi < 1024
    ensures f < FRAME_COUNT
  {
    Target(mem[dir][pdi])
  }

  /** f holds the directory or one of its tables. */
  ghost predicate IsTable(mem: Memory, dir: nat, f: nat)
    requires dir < FRAME_COUNT
  {
    f == dir || exists i :: 0 <= i < 1023 && HasTable(mem, dir, i) && TableOf(mem, dir, i) == f
  }

  /** The paging structures: the directory maps itself in the last slot, its tables are distinct
      used frames, and its own page in the first 4 MiB is identity-mapped. */
  ghost predicate TablesOk(mem: Memory, dir: nat, used: set<nat>) {
    && dir < 1024 && dir in used
    && mem[dir][1023] == TableEntry(dir)
    && (forall i | 0 <= i < 1023 && HasTable(mem, dir, i) ::
          TableOf(mem, dir, i) != dir && TableOf(mem, dir, i) in used)
    && (forall i, j | 0 <= i < j < 1023 && HasTable(mem, dir, i) && HasTable(mem, dir, j) ::
          TableOf(mem, dir, i) != TableOf(mem, dir, j))
    && Lookup(mem, dir, 0, dir) == Some(dir)
  }

  lemma WindowAddress(pdi: nat, pti: nat)
    requires pdi < 1023 && pti < 1024
    ensures PageTableVirtual(pdi) + 4 * pti < WORD_LIMIT
    ensures (PageTableVirtual(pdi) + 4 * pti) % 4 == 0
    ensures (PageTableVirtual(pdi) + 4 * pti) / 0x1000 == WindowPage(pdi)
    ensures (PageTableVirtual(pdi) + 4 * pti) % 0x1000 / 4 == pti
  {
    assert PageTableVirtual(pdi) == 0x1000 * WindowPage(pdi);
  }

  /** Word pti of the window page of slot pdi is entry pti of the table installed at pdi. */
  lemma WindowReachesTable(mem: Memory, dir: nat, used: set<nat>, pdi: nat, pti: nat)
    requires TablesOk(mem, dir, used) && pdi < 1023 && pti < 1024 && HasTable(mem, dir, pdi)
    ensures PageTableVirtual(pdi) + 4 * pti < WORD_LIMIT
    ensures (PageTableVirtual(pdi) + 4 * pti) % 4 == 0
    ensures (PageTableVirtual(pdi) + 4 * pti) / 0x1000 == WindowPage(pdi)
    ensures (PageTableVirtual(pdi) + 4 * pti) % 0x1000 / 4 == pti
    ensures Walk(mem, dir, WindowPage(pdi)) == Some(TableOf(mem, dir, pdi))
  {
    WindowAddress(pdi, pti);
    assert Target(mem[dir][1023]) == dir;
  }

  lemma SameDirectory(mem: Memory, mem': Memory, dir: nat, f: nat)
    requires dir < FRAME_COUNT && mem'[dir] == mem[dir]
    ensures IsTable(mem', dir, f) == IsTable(mem, dir, f)
  {
    forall i | 0 <= i < 1023
      ensures HasTable(mem', dir, i) == HasTable(mem, dir, i) && TableOf(mem', dir, i) == TableOf(mem, dir, i)
    {}
  }

  /** Memory that differs only outside the paging structures translates the same. */
  lemma SameTables(mem: Memory, mem': Memory, dir: nat, used: set<nat>)
    requires TablesOk(mem, dir, used)
    requires forall f | 0 <= f < FRAME_COUNT && IsTable(mem, dir, f) :: mem'[f] == mem[f]
    ensures TablesOk(mem', dir, used) && mem'[dir] == mem[dir]
    ensures forall p | 0 <= p < FRAME_COUNT :: Walk(mem', dir, p) == Walk(mem, dir, p)
  {
    assert mem'[dir] == mem[dir];
    assert forall k :: 0 <= k < 1023 ==> HasTable(mem', dir, k) == HasTable(mem, dir, k);
    forall pdi, pti | 0 <= pdi < 1024 && 0 <= pti < 1024
      ensures Lookup(mem', dir, pdi, pti) == Lookup(mem, dir, pdi, pti)
    {
      if pdi == 1023 {
        assert Target(mem[dir][1023]) == dir;
      } else if HasTable(mem, dir, pdi) {
        assert IsTable(mem, dir, TableOf(mem, dir, pdi));
      }
    }
  }

  /** Memory after entry is written for a page whose directory slot has a table. */
  function Mapped(mem: Memory, dir: nat, page: nat, entry: Word): Memory
    requires dir < FRAME_COUNT && page < FRAME_COUNT
  {
    SetWord(mem, TableOf(mem, dir, page / 1024), page % 1024, entry)
  }

  /** Memory after the cleared frame t is installed as the table of slot pdi. */
  function Installed(mem: Memory, dir: nat, pdi: nat, t: nat): Memory
    requires dir < FRAME_COUNT && pdi < 1024 && t < FRAME_COUNT
  {
    SetWord(mem, dir, pdi, TableEntry(t))[t := Blank()]
  }

  /** The page can be mapped: its slot has a table, or a frame is free to make one. */
  ghost predicate CanMap(mem: Memory, dir: nat, used: set<nat>, page: nat)
    requires dir < FRAME_COUNT && page < FRAME_COUNT
  {
    page < WINDOW && (HasTable(mem, dir, page / 1024) || !AllUsed(used))
  }

  /** The whole effect of `paging_map` on memory and on the set of used frames. */
  ghost predicate MapStep(mem: Memory, used: set<nat>, mem': Memory, used': set<nat>, dir: nat, page: nat, entry: Word)
    requires dir < FRAME_COUNT && page < FRAME_COUNT
  {
    if !CanMap(mem, dir, used, page) then mem' == mem && used' == used
    else if HasTable(mem, dir, page / 1024) then used' == used && mem' == Mapped(mem, dir, page, entry)
    else
      var t := Lowest(used);
      used' == used + {t} && mem' == Mapped(Installed(mem, dir, page / 1024, t), dir, page, entry)
  }

  /** The whole effect of `paging_unmap` on memory. */
  ghost predicate UnmapStep(mem: Memory, mem': Memory, dir: nat, page: nat)
    requires dir < FRAME_COUNT && page < FRAME_COUNT
  {
    if page >= WINDOW || !HasTable(mem, dir, page / 1024) then mem' == mem
    else mem' == Mapped(mem, dir, page, 0)
  }

  /** What an entry translates to. */
  function Translation(entry: Word): Option<nat> {
    if Present(entry) then Some(Target(entry)) else None
  }

  /** The entry that maps a page to a frame, writable and present. */
  lemma FrameEntry(f: nat)
    requires f < FRAME_COUNT
    ensures Translation(MakeEntry(f * 0x1000, 3)) == Some(f)
  {
    assert f * 0x1000 / 0x1000 == f && 3 % 0x1000 == 3;
    assert MakeEntry(f * 0x1000, 3) == TableEntry(f);
  }

  /** One table entry written: one lookup changes. */
  lemma EntryLookup(mem: Memory, dir: nat, used: set<nat>, pdi: nat, pti: nat, entry: Word, i: nat, k: nat)
    requires TablesOk(mem, dir, used) && pdi < 1023 && pti < 1024 && HasTable(mem, dir, pdi)
    requires i < 1024 && k < 1024
    ensures Lookup(SetWord(mem, TableOf(mem, dir, pdi), pti, entry), dir, i, k) ==
            if i == pdi && k == pti then Translation(entry) else Lookup(mem, dir, i, k)
  {
    var t := TableOf(mem, dir, pdi);
    if i == 1023 {
      assert TableOf(mem, dir, 1023) == dir;
    } else if i != pdi && HasTable(mem, dir, i) {
      assert TableOf(mem, dir, i) != t;
    }
  }

  /** Writing one table entry changes the translation of exactly one page. */
  lemma MappedTranslates(mem: Memory, dir: nat, used: set<nat>, page: nat, entry: Word)
    requires TablesOk(mem, dir, used) && page < WINDOW && HasTable(mem, dir, page / 1024)
    requires page == dir ==> Translation(entry) == Some(dir)
    ensures TablesOk(Mapped(mem, dir, page, entry), dir, used)
    ensures Mapped(mem, dir, page, entry)[dir] == mem[dir]
    ensures Walk(Mapped(mem, dir, page, entry), dir, page) == Translation(entry)
    ensures forall p | 0 <= p < FRAME_COUNT && p != page ::
              Walk(Mapped(mem, dir, page, entry), dir, p) == Walk(mem, dir, p)
  {
    var mem' := Mapped(mem, dir, page, entry);
    assert mem'[dir] == mem[dir];
    assert forall i :: 0 <= i < 1023 ==> HasTable(mem', dir, i) == HasTable(mem, dir, i);
    EntryLookup(mem, dir, used, page / 1024, page % 1024, entry, 0, dir);
    assert page == dir ==> page / 1024 == 0 && page % 1024 == dir;
    forall p | 0 <= p < FRAME_COUNT
      ensures Walk(mem', dir, p) == if p == page then Translation(entry) else Walk(mem, dir, p)
    {
      EntryLookup(mem, dir, used, page / 1024, page % 1024, entry, p / 1024, p % 1024);
    }
  }

  /** A table installed in an empty slot: only the window's lookup of that slot changes. */
  lemma InstalledLookup(mem: Memory, dir: nat, used: set<nat>, pdi: nat, t: nat, i: nat, k: nat)
    requires TablesOk(mem, dir, used) && pdi < 1023 && !HasTable(mem, dir, pdi)
    requires t < FRAME_COUNT && t !in used && i < 1024 && k < 1024
    ensures Lookup(Installed(mem, dir, pdi, t), dir, i, k) ==
            if i == 1023 && k == pdi then Some(t) else Lookup(mem, dir, i, k)
    ensures Lookup(mem, dir, 1023, pdi) == None
  {
    assert TableOf(mem, dir, 1023) == dir;
    if i < 1023 && i != pdi && HasTable(mem, dir, i) {
      assert TableOf(mem, dir, i) != t && TableOf(mem, dir, i) != dir;
    }
  }

  lemma InstalledOk(mem: Memory, mem': Memory, dir: nat, used: set<nat>, pdi: nat, t: nat)
    requires TablesOk(mem, dir, used) && pdi < 1023 && !HasTable(mem, dir, pdi)
    requires t < FRAME_COUNT && t !in used
    requires mem'[dir] == mem[dir][pdi := TableEntry(t)]
    requires Lookup(mem', dir, 0, dir) == Some(dir)
    ensures TablesOk(mem', dir, used + {t}) && HasTable(mem', dir, pdi) && TableOf(mem', dir, pdi) == t
  {
    forall i | 0 <= i < 1023 && i != pdi
      ensures HasTable(mem', dir, i) == HasTable(mem, dir, i) && TableOf(mem', dir, i) == TableOf(mem, dir, i)
    {}
  }

  /** Installing a cleared table changes no translation below the window, whatever the frame held
      before, and opens exactly one page of the window. */
  lemma InstalledTranslates(mem: Memory, dir: nat, used: set<nat>, pdi: nat, t: nat)
    requires TablesOk(mem, dir, used) && pdi < 1023 && !HasTable(mem, dir, pdi)
    requires t < FRAME_COUNT && t !in used
    ensures TablesOk(Installed(mem, dir, pdi, t), dir, used + {t})
    ensures HasTable(Installed(mem, dir, pdi, t), dir, pdi) && TableOf(Installed(mem, dir, pdi, t), dir, pdi) == t
    ensures forall p | 0 <= p < FRAME_COUNT ::
              Walk(Installed(mem, dir, pdi, t), dir, p) ==
              if p == WindowPage(pdi) then Some(t) else Walk(mem, dir, p)
  {
    InstalledLookup(mem, dir, used, pdi, t, 0, dir);
    InstalledOk(mem, Installed(mem, dir, pdi, t), dir, used, pdi, t);
    WindowAddress(pdi, 0);
    forall p | 0 <= p < FRAME_COUNT
      ensures Walk(Installed(mem, dir, pdi, t), dir, p) == if p == WindowPage(pdi) then Some(t) else Walk(mem, dir, p)
    {
      InstalledLookup(mem, dir, used, pdi, t, p / 1024, p % 1024);
    }
  }

  /** `paging_map` changes the translation of exactly one page below the window, and changes it to
      what the entry says if and only if the page can be mapped. */
  lemma MapTranslates(mem: Memory, used: set<nat>, mem': Memory, used': set<nat>, dir: nat, page: nat, entry: Word)
    requires TablesOk(mem, dir, used) && page < FRAME_COUNT
    requires MapStep(mem, used, mem', used', dir, page, entry)
    requires page == dir ==> Translation(entry) == Some(dir)
    ensures TablesOk(mem', dir, used')
    ensures CanMap(mem, dir, used, page) ==> Walk(mem', dir, page) == Translation(entry)
    ensures !CanMap(mem, dir, used, page) ==> Walk(mem', dir, page) == Walk(mem, dir, page)
    ensures forall p | 0 <= p < WINDOW && p != page :: Walk(mem', dir, p) == Walk(mem, dir, p)
  {
    if CanMap(mem, dir, used, page) {
      if HasTable(mem, dir, page / 1024) {
        MappedTranslates(mem, dir, used, page, entry);
      } else {
        var t := Lowest(used);
        var mem1 := Installed(mem, dir, page / 1024, t);
        InstalledTranslates(mem, dir, used, page / 1024, t);
        MappedTranslates(mem1, dir, used', page, entry);
      }
    }
  }

  /** `paging_map` writes to no frame but the directory and the tables. */
  lemma MapFrame(mem: Memory, used: set<nat>, mem': Memory, used': set<nat>, dir: nat, page: nat, entry: Word, g: nat)
    requires TablesOk(mem, dir, used) && page < FRAME_COUNT && g in used && g < FRAME_COUNT
    requires MapStep(mem, used, mem', used', dir, page, entry) && !IsTable(mem, dir, g)
    ensures mem'[g] == mem[g]
  {
    if CanMap(mem, dir, used, page) && !HasTable(mem, dir, page / 1024) {
      var t := Lowest(used);
      InstalledTranslates(mem, dir, used, page / 1024, t);
    }
  }

  /** `paging_map` adds at most one table: the page's, in the lowest free frame. */
  lemma MapDirectory(mem: Memory, used: set<nat>, mem': Memory, used': set<nat>, dir: nat, page: nat, entry: Word)
    requires TablesOk(mem, dir, used) && page < WINDOW
    requires MapStep(mem, used, mem', used', dir, page, entry)
    ensures used <= used'
    ensures forall i | 0 <= i < 1023 && i != page / 1024 :: mem'[dir][i] == mem[dir][i]
    ensures HasTable(mem, dir, page / 1024) ==> used' == used && mem'[dir] == mem[dir]
    ensures !CanMap(mem, dir, used, page) ==> used' == used && mem' == mem
    ensures CanMap(mem, dir, used, page) && !HasTable(mem, dir, page / 1024) ==>
              && HasTable(mem', dir, page / 1024)
              && TableOf(mem', dir, page / 1024) == Lowest(used)
              && used' == used + {Lowest(used)}
  {
    if CanMap(mem, dir, used, page) && !HasTable(mem, dir, page / 1024) {
      var t := Lowest(used);
      InstalledTranslates(mem, dir, used, page / 1024, t);
    }
  }

  lemma UnmapTranslates(mem: Memory, used: set<nat>, mem': Memory, dir: nat, page: nat)
    requires TablesOk(mem, dir, used) && page < FRAME_COUNT && page != dir
    requires UnmapStep(mem, mem', dir, page)
    ensures TablesOk(mem', dir, used) && mem'[dir] == mem[dir]
    ensures page < WINDOW ==> Walk(mem', dir, page) == None
    ensures forall p | 0 <= p < FRAME_COUNT && p != page :: Walk(mem', dir, p) == Walk(mem, dir, p)
  {
    if page < WINDOW && HasTable(mem, dir, page / 1024) {
      MappedTranslates(mem, dir, used, page, 0);
    }
  }

  /** Writing one table entry and dropping its page from the cache keeps the cache coherent. */
  lemma MappedCoherent(mem: Memory, dir: nat, used: set<nat>, tlb: map<nat, nat>, page: nat, entry: Word)
    requires TablesOk(mem, dir, used) && page < WINDOW && HasTable(mem, dir, page / 1024)
    requires page == dir ==> Translation(entry) == Some(dir)
    requires Coherent(mem, dir, tlb)
    ensures Coherent(Mapped(mem, dir, page, entry), dir, tlb - {page})
  {
    MappedTranslates(mem, dir, used, page, entry);
  }

  /** The directory entry alone, before the new table's frame is cleared: the slot's pages may
      translate to anything, but none of them is cached. */
  lemma EntryInstalled(mem: Memory, dir: nat, used: set<nat>, tlb: map<nat, nat>, pdi: nat, t: nat)
    requires TablesOk(mem, dir, used) && pdi < 1023 && !HasTable(mem, dir, pdi)
    requires t < FRAME_COUNT && t !in used && Coherent(mem, dir, tlb)
    ensures pdi > 0
    ensures TablesOk(SetWord(mem, dir, pdi, TableEntry(t)), dir, used + {t})
    ensures HasTable(SetWord(mem, dir, pdi, TableEntry(t)), dir, pdi)
    ensures TableOf(SetWord(mem, dir, pdi, TableEntry(t)), dir, pdi) == t
    ensures Coherent(SetWord(mem, dir, pdi, TableEntry(t)), dir, tlb)
    ensures forall p | p in tlb :: p / 1024 != pdi
  {
    var mem' := SetWord(mem, dir, pdi, TableEntry(t));
    assert mem'[dir] == mem[dir][pdi := TableEntry(t)];
    forall i, k | 0 <= i < 1024 && 0 <= k < 1024 && Lookup(mem, dir, i, k).Some?
      ensures i != pdi && Lookup(mem', dir, i, k) == Lookup(mem, dir, i, k)
    {
      EntryInstalledLookup(mem, dir, used, pdi, t, i, k);
    }
    InstalledOk(mem, mem', dir, used, pdi, t);
  }

  lemma EntryInstalledLookup(mem: Memory, dir: nat, used: set<nat>, pdi: nat, t: nat, i: nat, k: nat)
    requires TablesOk(mem, dir, used) && pdi < 1023 && !HasTable(mem, dir, pdi)
    requires t < FRAME_COUNT && t !in used && i < 1024 && k < 1024
    requires Lookup(mem, dir, i, k).Some?
    ensures i != pdi
    ensures Lookup(SetWord(mem, dir, pdi, TableEntry(t)), dir, i, k) == Lookup(mem, dir, i, k)
  {
    assert TableOf(mem, dir, 1023) == dir;
    if i < 1023 {
      assert TableOf(mem, dir, i) != dir;
    }
  }

  /** Word pdi of the directory's own identity-mapped page is directory entry pdi. */
  lemma DirectoryAddress(mem: Memory, dir: nat, used: set<nat>, pdi: nat)
    requires TablesOk(mem, dir, used) && pdi < 1024
    ensures (dir * 0x1000 + 4 * pdi) % 4 == 0
    ensures (dir * 0x1000 + 4 * pdi) / 0x1000 == dir
    ensures (dir * 0x1000 + 4 * pdi) % 0x1000 / 4 == pdi
    ensures Walk(mem, dir, dir) == Some(dir)
  {
    assert dir / 1024 == 0 && dir % 1024 == dir;
  }

  lemma InstalledHasTable(mem: Memory, used: set<nat>, mem': Memory, used': set<nat>, dir: nat, pdi: nat)
    requires TablesOk(mem, dir, used) && pdi < 1023 && !HasTable(mem, dir, pdi)
    requires !AllUsed(used) && used' == used + {Lowest(used)} && mem' == Installed(mem, dir, pdi, Lowest(used))
    ensures HasTable(mem', dir, pdi)
  {
    InstalledTranslates(mem, dir, used, pdi, Lowest(used));
  }

  /** What `paging_get_physical` returns for a page. */
  function PhysicalOf(mem: Memory, dir: nat, page: nat): Word
    requires dir < FRAME_COUNT && page < FRAME_COUNT
  {
    if page >= WINDOW || !HasTable(mem, dir, page / 1024) then 0
    else mem[TableOf(mem, dir, page / 1024)][page % 1024] / 0x1000 * 0x1000
  }

  /** For a mapped page that is the address of the frame it translates to. */
  lemma PhysicalIsTranslation(mem: Memory, dir: nat, page: nat)
    requires dir < FRAME_COUNT && page < WINDOW && Walk(mem, dir, page).Some?
    ensures PhysicalOf(mem, dir, page) == 0x1000 * Walk(mem, dir, page).value
  {}

  /** An entry of any kind: the frame of the address, and the flags, of which bit 0 says present. */
  lemma EntryParts(physical: Word, flags: Word)
    ensures Translation(MakeEntry(physical, flags)) == if flags % 2 == 1 then Some(physical / 0x1000) else None
    ensures MakeEntry(physical, flags) / 0x1000 == physical / 0x1000
              && MakeEntry(physical, flags) % 0x1000 == flags % 0x1000
  {
    SplitEntry(physical / 0x1000, flags % 0x1000);
    LowestBit(flags / 0x1000, flags % 0x1000);
  }

  lemma SplitEntry(q: nat, r: nat)
    requires r < 0x1000
    ensures (q * 0x1000 + r) / 0x1000 == q && (q * 0x1000 + r) % 0x1000 == r && (q * 0x1000 + r) % 2 == r % 2
  {
    LowestBit(q, r);
  }

  lemma LowestBit(q: nat, r: nat)
    ensures (q * 0x1000 + r) % 2 == r % 2
  {
    assert q * 0x1000 + r == r + 2 * (0x800 * q);
  }

  /** Writing one table entry changes the reading of exactly one page. */
  lemma MappedPhysical(mem: Memory, dir: nat, used: set<nat>, page: nat, entry: Word)
    requires TablesOk(mem, dir, used) && page < WINDOW && HasTable(mem, dir, page / 1024)
    ensures PhysicalOf(Mapped(mem, dir, page, entry), dir, page) == entry / 0x1000 * 0x1000
    ensures forall p | 0 <= p < FRAME_COUNT && p != page ::
              PhysicalOf(Mapped(mem, dir, page, entry), dir, p) == PhysicalOf(mem, dir, p)
  {
    var mem' := Mapped(mem, dir, page, entry);
    assert mem'[dir] == mem[dir];
    forall p | 0 <= p < WINDOW && p != page && HasTable(mem, dir, p / 1024)
      ensures PhysicalOf(mem', dir, p) == PhysicalOf(mem, dir, p)
    {
      if p / 1024 != page / 1024 {
        assert TableOf(mem, dir, p / 1024) != TableOf(mem, dir, page / 1024);
      }
    }
  }

  /** A page without a table reads 0, and still does when its slot has just got a cleared one. */
  lemma InstalledPhysical(mem: Memory, dir: nat, used: set<nat>, pdi: nat, t: nat)
    requires TablesOk(mem, dir, used) && pdi < 1023 && !HasTable(mem, dir, pdi)
    requires t < FRAME_COUNT && t !in used
    ensures forall p | 0 <= p < FRAME_COUNT ::
              PhysicalOf(Installed(mem, dir, pdi, t), dir, p) == PhysicalOf(mem, dir, p)
  {
    var mem' := Installed(mem, dir, pdi, t);
    assert mem'[dir] == mem[dir][pdi := TableEntry(t)] && mem'[t] == Blank();
    forall p | 0 <= p < WINDOW ensures PhysicalOf(mem', dir, p) == PhysicalOf(mem, dir, p) {
      if p / 1024 != pdi && HasTable(mem, dir, p / 1024) {
        assert TableOf(mem, dir, p / 1024) != t && TableOf(mem, dir, p / 1024) != dir;
      }
    }
  }

  /** After `paging_map` of a page that can be mapped, `paging_get_physical` returns the page-aligned
      address given, present or not; every other page reads as before. */
  lemma MapPhysical(mem: Memory, used: set<nat>, mem': Memory, used': set<nat>, dir: nat, page: nat,
                    physical: Word, flags: Word)
    requires TablesOk(mem, dir, used) && page < FRAME_COUNT
    requires MapStep(mem, used, mem', used', dir, page, MakeEntry(physical, flags))
    ensures PhysicalOf(mem', dir, page) ==
            if CanMap(mem, dir, used, page) then physical / 0x1000 * 0x1000 else PhysicalOf(mem, dir, page)
    ensures forall p | 0 <= p < FRAME_COUNT && p != page :: PhysicalOf(mem', dir, p) == PhysicalOf(mem, dir, p)
  {
    EntryParts(physical, flags);
    if CanMap(mem, dir, used, page) {
      var entry := MakeEntry(physical, flags);
      if HasTable(mem, dir, page / 1024) {
        MappedPhysical(mem, dir, used, page, entry);
      } else {
        var t := Lowest(used);
        InstalledTranslates(mem, dir, used, page / 1024, t);
        InstalledPhysical(mem, dir, used, page / 1024, t);
        MappedPhysical(Installed(mem, dir, page / 1024, t), dir, used', page, entry);
      }
    }
  }

  /** A page just unmapped reads 0, and every other page as before. */
  lemma UnmapPhysical(mem: Memory, used: set<nat>, mem': Memory, dir: nat, page: nat)
    requires TablesOk(mem, dir, used) && page < FRAME_COUNT
    requires UnmapStep(mem, mem', dir, page)
    ensures PhysicalOf(mem', dir, page) == 0
    ensures forall p | 0 <= p < FRAME_COUNT && p != page :: PhysicalOf(mem', dir, p) == PhysicalOf(mem, dir, p)
  {
    if page < WINDOW && HasTable(mem, dir, page / 1024) {
      MappedPhysical(mem, dir, used, page, 0);
    }
  }

  /** Memory that differs only outside the paging structures reads the same. */
  lemma SamePhysical(mem: Memory, mem': Memory, dir: nat, used: set<nat>)
    requires TablesOk(mem, dir, used)
    requires forall f | 0 <= f < FRAME_COUNT && IsTable(mem, dir, f) :: mem'[f] == mem[f]
    ensures forall p | 0 <= p < FRAME_COUNT :: PhysicalOf(mem', dir, p) == PhysicalOf(mem, dir, p)
  {
    assert mem'[dir] == mem[dir];
    forall p | 0 <= p < WINDOW && HasTable(mem, dir, p / 1024)
      ensures PhysicalOf(mem', dir, p) == PhysicalOf(mem, dir, p)
    {
      assert IsTable(mem, dir, TableOf(mem, dir, p / 1024));
    }
  }

  /** The directory and the boot table as `paging_initialize` leaves them: the first 4 MiB is
      identity-mapped and nothing else below the window is. */
  ghost predicate BootMapped(mem: Memory, dir: nat, bootTable: nat)
    requires dir < FRAME_COUNT
  {
    && HasTable(mem, dir, 0) && TableOf(mem, dir, 0) == bootTable
    && (forall i | 1 <= i < 1023 :: !HasTable(mem, dir, i))
    && (forall p | 0 <= p < 1024 :: Walk(mem, dir, p) == Some(p))
    && (forall p | 1024 <= p < WINDOW :: Walk(mem, dir, p) == None)
  }

  lemma BootTables(mem: Memory, dir: nat, bootTable: nat, used: set<nat>)
    requires dir < 1024 && bootTable < 1024 && dir != bootTable && dir in used && bootTable in used
    requires mem[dir][0] == TableEntry(bootTable) && mem[dir][1023] == TableEntry(dir)
    requires forall i | 1 <= i < 1023 :: mem[dir][i] == 2
    requires forall k | 0 <= k < 1024 :: mem[bootTable][k] == TableEntry(k)
    ensures TablesOk(mem, dir, used) && BootMapped(mem, dir, bootTable)
  {}

  /** `page_directory`, reached through the processor, with the frame allocator that feeds it. */
  class PagingUnit {
    const cpu: Processor
    const pmm: FrameAllocator
    const dir: nat

    ghost predicate Valid()
      reads this, cpu, pmm, pmm.bitmap
    {
      && pmm.Valid()
      && cpu.cr3 == dir
      && TablesOk(cpu.mem, dir, pmm.used)
      && Coherent(cpu.mem, dir, cpu.tlb)
    }

    /** The first 4 MiB identity-mapped, the directory reachable through its last slot, and
        nothing else mapped. */
    constructor Initialize(cpu: Processor, pmm: FrameAllocator, dir: nat, bootTable: nat)
      requires pmm.Valid() && dir in pmm.used && bootTable in pmm.used
      requires dir < 1024 && bootTable < 1024 && dir != bootTable
      modifies cpu
      ensures this.cpu == cpu && this.pmm == pmm && this.dir == dir && Valid()
      ensures BootMapped(cpu.mem, dir, bootTable)
      ensures forall f | 0 <= f < FRAME_COUNT && f != dir && f != bootTable :: cpu.mem[f] == old(cpu.mem)[f]
    {
      this.cpu, this.pmm, this.dir := cpu, pmm, dir;
      new;
      var i := 0;
      while i < 1024
        invariant i <= 1024
        invariant forall k | 0 <= k < i :: cpu.mem[dir][k] == 2
        invariant forall f | 0 <= f < FRAME_COUNT && f != dir :: cpu.mem[f] == old(cpu.mem)[f]
      {
        cpu.StorePhysical(dir, i, 2);
        i := i + 1;
      }
      cpu.StorePhysical(dir, RECURSIVE_INDEX, TableEntry(dir));

      ghost var directory := cpu.mem[dir];
      i := 0;
      while i < 1024
        invariant i <= 1024
        invariant cpu.mem[dir] == directory
        invariant forall k | 0 <= k < i :: cpu.mem[bootTable][k] == TableEntry(k)
        invariant forall f | 0 <= f < FRAME_COUNT && f != dir && f != bootTable :: cpu.mem[f] == old(cpu.mem)[f]
      {
        cpu.StorePhysical(bootTable, i, TableEntry(i));
        i := i + 1;
      }
      cpu.StorePhysical(dir, 0, TableEntry(bootTable));
      cpu.LoadCr3(dir);
      BootTables(cpu.mem, dir, bootTable, pmm.used);
    }

    /** A program load. */
    method Read(va: Word) returns (w: Word)
      requires Valid() && va % 4 == 0 && Walk(cpu.mem, dir, va / 0x1000).Some?
      modifies cpu`tlb
      ensures Valid()
      ensures w == cpu.mem[Walk(cpu.mem, dir, va / 0x1000).value][va % 0x1000 / 4]
    {
      w := cpu.Load(va);
    }

    /** A program store that misses the paging structures: it changes one word of one frame and no
        translation. */
    method Write(va: Word, w: Word)
      requires Valid() && va % 4 == 0 && Walk(cpu.mem, dir, va / 0x1000).Some?
      requires !IsTable(cpu.mem, dir, Walk(cpu.mem, dir, va / 0x1000).value)
      modifies cpu`tlb, cpu`mem
      ensures Valid()
      ensures cpu.mem == SetWord(old(cpu.mem), old(Walk(cpu.mem, dir, va / 0x1000)).value, va % 0x1000 / 4, w)
      ensures forall p | 0 <= p < FRAME_COUNT :: Walk(cpu.mem, dir, p) == Walk(old(cpu.mem), dir, p)
      ensures cpu.mem[dir] == old(cpu.mem)[dir]
    {
      ghost var f := Walk(cpu.mem, dir, va / 0x1000).value;
      SameTables(cpu.mem, SetWord(cpu.mem, f, va % 0x1000 / 4, w), dir, pmm.used);
      cpu.Store(va, w);
    }

    /** The clearing loop of `paging_map`, through the window page of the new table. */
    method ClearTable(pdi: nat)
      requires Valid() && 0 < pdi < 1023 && HasTable(cpu.mem, dir, pdi)
      requires forall p | p in cpu.tlb :: p / 1024 != pdi
      modifies cpu`tlb, cpu`mem
      ensures Valid() && cpu.mem == old(cpu.mem)[TableOf(old(cpu.mem), dir, pdi) := Blank()]
      ensures forall p | p in cpu.tlb :: p / 1024 != pdi
    {
      var table := PageTableVirtual(pdi);
      ghost var t := TableOf(cpu.mem, dir, pdi);
      var i := 0;
      while i < 1024
        invariant i <= 1024 && Valid()
        invariant cpu.mem == old(cpu.mem)[t := cpu.mem[t]]
        invariant forall k | 0 <= k < i :: cpu.mem[t][k] == 0
        invariant forall p | p in cpu.tlb :: p / 1024 != pdi
      {
        ghost var before := cpu.mem;
        assert HasTable(before, dir, pdi) && TableOf(before, dir, pdi) == t;
        WindowReachesTable(before, dir, pmm.used, pdi, i);
        cpu.Store(table + 4 * i, 0);
        ghost var page := pdi * 1024 + i;
        assert page / 1024 == pdi && page % 1024 == i;
        MappedTranslates(before, dir, pmm.used, page, 0);
        assert cpu.mem == Mapped(before, dir, page, 0);
        i := i + 1;
      }
      assert cpu.mem[t] == Blank();
    }

    /** `page_directory[pdi]`, a load through the directory's own page. */
    method ReadDirectory(pdi: nat) returns (entry: Word)
      requires Valid() && pdi < 1024
      modifies cpu`tlb
      ensures Valid() && entry == cpu.mem[dir][pdi]
      ensures forall p | p in cpu.tlb :: p == dir || p in old(cpu.tlb)
    {
      DirectoryAddress(cpu.mem, dir, pmm.used, pdi);
      entry := cpu.Load(dir * 0x1000 + 4 * pdi);
    }

    /** Installs a cleared table in an empty directory slot. */
    method InstallTable(pdi: nat) returns (ok: bool)
      requires Valid() && pdi < 1023 && !HasTable(cpu.mem, dir, pdi)
      modifies cpu`tlb, cpu`mem, pmm, pmm.bitmap
      ensures Valid() && ok == !AllUsed(old(pmm.used))
      ensures !ok ==> cpu.mem == old(cpu.mem) && pmm.used == old(pmm.used)
      ensures ok ==>
                && pmm.used == old(pmm.used) + {Lowest(old(pmm.used))}
                && cpu.mem == Installed(old(cpu.mem), dir, pdi, Lowest(old(pmm.used)))
    {
      hide TablesOk, Lookup;
      var tableFrame := pmm.Alloc();
      if tableFrame == NO_FRAME {
        return false;
      }
      ghost var t := tableFrame / 0x1000;
      EntryInstalled(cpu.mem, dir, old(pmm.used), cpu.tlb, pdi, t);
      DirectoryAddress(cpu.mem, dir, old(pmm.used), pdi);
      cpu.Store(dir * 0x1000 + 4 * pdi, TableEntry(tableFrame / 0x1000));
      cpu.Invlpg(PageTableVirtual(pdi));
      ClearTable(pdi);
      return true;
    }

    /** `table[page_table_index] = entry`, then `invlpg`. */
    method WriteEntry(va: Word, entry: Word)
      requires Valid() && va / 0x1000 < WINDOW && HasTable(cpu.mem, dir, va / 0x1000 / 1024)
      requires va / 0x1000 == dir ==> Translation(entry) == Some(dir)
      modifies cpu`tlb, cpu`mem
      ensures Valid() && cpu.mem == Mapped(old(cpu.mem), dir, va / 0x1000, entry)
    {
      ghost var page := va / 0x1000;
      var pdi, pti := va / 0x1000 / 1024, va / 0x1000 % 1024;
      WindowReachesTable(cpu.mem, dir, pmm.used, pdi, pti);
      ghost var cached := cpu.tlb[WindowPage(pdi) := TableOf(cpu.mem, dir, pdi)];
      cpu.Store(PageTableVirtual(pdi) + 4 * pti, entry);
      MappedCoherent(old(cpu.mem), dir, pmm.used, cached, page, entry);
      MappedTranslates(old(cpu.mem), dir, pmm.used, page, entry);
      cpu.Invlpg(va);
    }

    /** `paging_map` */
    method Map(va: Word, physical: Word, flags: Word)
      requires Valid()
      requires va / 0x1000 == dir ==> Translation(MakeEntry(physical, flags)) == Some(dir)
      modifies cpu`tlb, cpu`mem, pmm, pmm.bitmap
      ensures Valid()
      ensures MapStep(old(cpu.mem), old(pmm.used), cpu.mem, pmm.used, dir, va / 0x1000, MakeEntry(physical, flags))
    {
      var pdi := va / 0x40_0000;
      assert va / 0x1000 / 1024 == pdi;
      if pdi >= RECURSIVE_INDEX {
        return;
      }
      var entry := ReadDirectory(pdi);
      if !Present(entry) {
        var ok := InstallTable(pdi);
        if !ok {
          return;
        }
        InstalledHasTable(old(cpu.mem), old(pmm.used), cpu.mem, pmm.used, dir, pdi);
      }
      WriteEntry(va, MakeEntry(physical, flags));
    }

    /** `paging_unmap` */
    method Unmap(va: Word)
      requires Valid() && va / 0x1000 != dir
      modifies cpu`tlb, cpu`mem
      ensures Valid() && UnmapStep(old(cpu.mem), cpu.mem, dir, va / 0x1000)
    {
      var pdi := va / 0x40_0000;
      assert va / 0x1000 / 1024 == pdi;
      if pdi >= RECURSIVE_INDEX {
        return;
      }
      var entry := ReadDirectory(pdi);
      if !Present(entry) {
        return;
      }
      WriteEntry(va, 0);
    }

    /** `paging_get_physical` */
    method GetPhysical(va: Word) returns (physical: Word)
      requires Valid()
      modifies cpu`tlb
      ensures Valid()
      ensures physical == PhysicalOf(cpu.mem, dir, va / 0x1000)
    {
      var pdi := va / 0x40_0000;
      assert va / 0x1000 / 1024 == pdi;
      if pdi >= RECURSIVE_INDEX {
        return 0;
      }
      var entry := ReadDirectory(pdi);
      if !Present(entry) {
        return 0;
      }
      var pti := va / 0x1000 % 1024;
      WindowReachesTable(cpu.mem, dir, pmm.used, pdi, pti);
      var pte := cpu.Load(PageTableVirtual(pdi) + 4 * pti);
      return pte / 0x1000 * 0x1000;
    }
  }
}
