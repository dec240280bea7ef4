/** Laying pages for large blocks and stacks: how many frames a run of pages takes, what has been
    laid so far, and the 32-bit arithmetic of the region check. */
module LargeSteps {
  import opened Words
  import opened Hardware
  import opened Pmm
  import opened Paging
  import opened SlabPage
  import opened World
  import opened Transitions
  import opened Slices

  /** `total` and `pages` of `kmalloc_large`, in 32-bit arithmetic. */
  function LargePages(size: Word): nat {
    Wrap(Wrap(size + 8) + 0xFFF) / 0x1000
  }

  /** `next_large_vaddr + pages * PAGE_SIZE > LARGE_ALLOC_REGION_END` does not hold. */
  predicate RegionAccepts(next: Word, size: Word) {
    Wrap(next + Wrap(LargePages(size) * 0x1000)) <= 0xD000_0000
  }

  /** The pages that a header and size bytes really take, and whether they really fit. */
  function TruePages(size: Word): (n: nat)
    ensures n > 0 && size + 8 <= n * 0x1000 < size + 8 + 0x1000
  {
    (size + 8 + 0xFFF) / 0x1000
  }

  predicate TrulyFits(next: Word, size: Word) {
    next + TruePages(size) * 0x1000 <= 0xD000_0000
  }

  /** The block's true end stays below 4 GiB, or the region is full and the sum has wrapped to a
      one-page block. */
  predicate RegionRight(next: Word, size: Word) {
    next + TruePages(size) * 0x1000 < 0x1_0000_0000 || (next == 0xD000_0000 && size > 0xFFFF_FFF8)
  }

  /** The region check is right for exactly these requests. */
  lemma RegionCheckExact(next: Word, size: Word)
    requires 0xC000_0000 <= next <= 0xD000_0000 && next % 0x1000 == 0
    ensures (RegionAccepts(next, size) <==> TrulyFits(next, size)) <==> RegionRight(next, size)
  {
    var t := size + 8;
    if t + 0xFFF < 0x1_0000_0000 {
      assert LargePages(size) == TruePages(size);
    } else if t < 0x1_0000_0000 {
      assert LargePages(size) == 0;
    } else {
      assert Wrap(t) == t - 0x1_0000_0000;
      assert LargePages(size) == if t == 0x1_0000_0000 then 0 else 1;
    }
  }

  /** A request that the wrapped check lets through although it cannot fit. */
  lemma RegionCheckWraps()
    ensures RegionAccepts(0xC000_0000, 0x4000_0000) && !TrulyFits(0xC000_0000, 0x4000_0000)
  {}

  /** Up to 0x2FFFEFF8 bytes it is, wherever the cursor is. */
  lemma RegionCheckSafe(next: Word, size: Word)
    requires 0xC000_0000 <= next <= 0xD000_0000 && size <= 0x2FFF_EFF8
    ensures RegionRight(next, size)
  {}

  /** What the check computes then. */
  lemma RegionNumbers(next: Word, size: Word)
    requires 0xC000_0000 <= next <= 0xD000_0000 && next % 0x1000 == 0 && RegionRight(next, size)
    ensures Wrap(next + Wrap(LargePages(size) * 0x1000)) > 0xD000_0000 <==> next / 0x1000 + TruePages(size) > LARGE_END
    ensures next / 0x1000 + TruePages(size) <= LARGE_END ==>
              && LargePages(size) == TruePages(size) <= 0x1_0000 && size + 8 <= TruePages(size) * 0x1000
              && Wrap(next + Wrap(LargePages(size) * 0x1000)) == next + TruePages(size) * 0x1000
  {
    var n := TruePages(size);
    assert size + 8 <= n * 0x1000 <= size + 8 + 0xFFF;
    if next + n * 0x1000 < 0x1_0000_0000 {
      assert LargePages(size) == n;
      NoWrap(n * 0x1000);
      NoWrap(next + n * 0x1000);
    } else {
      assert Wrap(size + 8) == size + 8 - 0x1_0000_0000;
      assert LargePages(size) == 1;
    }
  }

  lemma NoWrap(x: nat)
    requires x < 0x1_0000_0000
    ensures Wrap(x) == x
  {}

  /** Page b + k opens a directory slot that had no table. */
  ghost predicate OpensTable(mem: Memory, dir: nat, b: nat, k: nat)
    requires dir < FRAME_COUNT && b + k < WINDOW
  {
    !HasTable(mem, dir, (b + k) / 1024) && (k == 0 || (b + k) / 1024 != (b + k - 1) / 1024)
  }

  /** How many frames mapping the n pages from b on takes, tables included. */
  ghost function Needed(mem: Memory, dir: nat, b: nat, n: nat): nat
    requires dir < FRAME_COUNT && b + n <= WINDOW
  {
    if n == 0 then 0 else Needed(mem, dir, b, n - 1) + (if OpensTable(mem, dir, b, n - 1) then 2 else 1)
  }

  lemma {:induction false} NeededGrows(mem: Memory, dir: nat, b: nat, m: nat, n: nat)
    requires dir < FRAME_COUNT && b + n <= WINDOW && m <= n
    ensures Needed(mem, dir, b, m) + (n - m) <= Needed(mem, dir, b, n)
  {
    if m < n {
      NeededGrows(mem, dir, b, m, n - 1);
    }
  }

  /** Only the tables of the pages' own slots count. */
  lemma {:induction false} NeededSame(mem: Memory, mem': Memory, dir: nat, b: nat, n: nat)
    requires dir < FRAME_COUNT && b + n <= WINDOW
    requires forall s | b / 1024 <= s < 1023 :: HasTable(mem', dir, s) == HasTable(mem, dir, s)
    ensures Needed(mem', dir, b, n) == Needed(mem, dir, b, n)
  {
    if n > 0 {
      NeededSame(mem, mem', dir, b, n - 1);
    }
  }

  /** Slot s belongs to one of the m pages from b on. */
  ghost predicate SlotIn(b: nat, m: nat, s: nat) {
    m > 0 && b / 1024 <= s <= (b + m - 1) / 1024
  }

  lemma SlotInStep(b: nat, m: nat, s: nat)
    ensures SlotIn(b, m + 1, s) <==> SlotIn(b, m, s) || s == (b + m) / 1024
  {}

  /** Frames have been laid at the pages from b on, one each, starting from w0; the pages up to end
      that are left are unmapped. */
  ghost predicate Laid(w0: State, w: State, b: nat, end: nat, frames: seq<nat>) {
    && w0.dir == w.dir < FRAME_COUNT && LARGE_BASE <= b && b + |frames| <= end <= STACK_END
    && Mounted(w, b, frames) && Vacant(w, b, end)
    && (forall p | b + |frames| <= p < end :: Walk(w.mem, w.dir, p) == None)
    && |w.used| == |w0.used| + Needed(w0.mem, w.dir, b, |frames|)
    && TablesFor(w0, w, b, |frames|)
  }

  /** The directory has gained the tables for the m pages from b on. */
  ghost predicate TablesFor(w0: State, w: State, b: nat, m: nat) {
    && w0.dir == w.dir < FRAME_COUNT
    && forall s | 0 <= s < 1023 :: HasTable(w.mem, w.dir, s) <==> HasTable(w0.mem, w.dir, s) || SlotIn(b, m, s)
  }

  lemma SameTablesFor(w0: State, w: State, w': State, b: nat, m: nat)
    requires TablesFor(w0, w, b, m) && w'.dir == w.dir && w'.mem[w.dir] == w.mem[w.dir]
    ensures TablesFor(w0, w', b, m)
  {
    forall s | 0 <= s < 1023 ensures HasTable(w'.mem, w'.dir, s) == HasTable(w.mem, w.dir, s) {}
  }

  /** The frames that belong to nobody in w but not in w0. */
  ghost function Gained(w0: State, w: State): set<nat> {
    Orphans(w) - Orphans(w0)
  }

  lemma {:induction false} FramesBelowCount(n: nat)
    ensures |FramesBelow(n)| == n
  {
    if n > 0 {
      FramesBelowCount(n - 1);
    }
  }

  /** All frames are used exactly when the count says so. */
  lemma AllUsedCount(used: set<nat>)
    requires forall f | f in used :: f < FRAME_COUNT
    ensures |used| <= FRAME_COUNT && (AllUsed(used) <==> |used| == FRAME_COUNT)
  {
    var all := FramesBelow(FRAME_COUNT);
    FramesBelowCount(FRAME_COUNT);
    assert used <= all;
    SubsetCount(used, all);
    if AllUsed(used) {
      assert used == all;
    }
  }

  lemma UntouchedVacant(w: State, w': State, b: nat, end: nat)
    requires Inv(w') && Untouched(w, w') && Vacant(w, b, end) && LARGE_BASE <= b
    ensures Vacant(w', b, end)
  {
    SlabsLow(w');
    forall p | b <= p < end ensures !Watched(w', p) {
      assert !Watched(w, p);
    }
  }

  /** One more page laid: frame f taken, and mapped at page b + |frames|. */
  ghost predicate LayStep(w: State, w': State, page: nat, f: nat, entry: Word) {
    && w.dir < FRAME_COUNT && page < WINDOW && !AllUsed(w.used) && f == Lowest(w.used)
    && MapStep(w.mem, w.used + {f}, w'.mem, w'.used, w.dir, page, entry)
    && w' == AfterMap(Allocated(w, f), w'.mem, w'.used, page)
  }

  lemma LaidCount(w0: State, w: State, w': State, b: nat, end: nat, frames: seq<nat>, page: nat, f: nat, entry: Word)
    requires Laid(w0, w, b, end, frames) && page == b + |frames| < end && OwnersOk(w)
    requires LayStep(w, w', page, f, entry)
    requires CanMap(w.mem, w.dir, w.used + {f}, page)
    ensures |w'.used| == |w0.used| + Needed(w0.mem, w.dir, b, |frames| + 1)
    ensures TablesFor(w0, w', b, |frames| + 1)
  {
    var m := |frames|;
    MapDirectory(w.mem, w.used + {f}, w'.mem, w'.used, w.dir, page, entry);
    forall s | 0 <= s < 1023
      ensures HasTable(w'.mem, w.dir, s) <==> HasTable(w0.mem, w.dir, s) || SlotIn(b, m + 1, s)
    {
      SlotInStep(b, m, s);
    }
    assert f !in w.used;
    assert HasTable(w.mem, w.dir, page / 1024) <==> !OpensTable(w0.mem, w.dir, b, m);
  }

  lemma LaidStep(w0: State, w: State, w': State, b: nat, end: nat, frames: seq<nat>, page: nat, f: nat)
    requires f < FRAME_COUNT && Laid(w0, w, b, end, frames) && page == b + |frames| < end && OwnersOk(w)
    requires LayStep(w, w', page, f, MakeEntry(f * 0x1000, 3))
    requires CanMap(w.mem, w.dir, w.used + {f}, page)
    requires Vacant(w', b, end)
    ensures Laid(w0, w', b, end, frames + [f])
  {
    hide MapStep, TablesOwned, BootOwned, BootExactly, TablesOk;
    LaidCount(w0, w, w', b, end, frames, page, f, MakeEntry(f * 0x1000, 3));
    LaidMounted(w, w', b, frames, f, page);
  }

  /** i pages have been gone over: a frame taken for each, those mapped among them, and nothing else
      but page tables. */
  ghost predicate Booked(w0: State, w: State, frames: seq<nat>, i: nat) {
    && w0.v.owner.Keys == w0.used && Accounts(w0, w, Gained(w0, w), {}, Gained(w0, w))
    && ToSet(frames) <= Gained(w0, w) && |Gained(w0, w)| == i
  }

  lemma BookedStart(w0: State)
    requires OwnersOk(w0)
    ensures Booked(w0, w0, [], 0)
  {
    AccountsSame(w0, w0);
    assert Gained(w0, w0) == {} && ToSet([]) == {};
  }

  /** A page gone over takes its frame and, if its slot was empty and a frame is left, the table. */
  lemma LayAccounts(w: State, w': State, page: nat, f: nat, entry: Word)
    requires OwnersOk(w) && LayStep(w, w', page, f, entry)
    ensures Accounts(w, w', {f}, {}, {f})
  {
    var w1 := Allocated(w, f);
    assert f !in w.used;
    AllocatedTables(w, f);
    AllocatedAccounts(w, f);
    MapDirectory(w.mem, w1.used, w'.mem, w'.used, w.dir, page, entry);
    MapAccounts(w1, w', page / 1024);
    AccountsGain(w, w1, w', {f}, {f}, {}, {});
  }

  /** A map gives the one frame it may take to a page table. */
  lemma MapAccounts(w: State, w': State, pdi: nat)
    requires w.v.owner.Keys == w.used && w'.v.owner == MapOwner(w.v.owner, w'.used, pdi)
    requires w'.used == w.used
          || (!AllUsed(w.used) && w'.used == w.used + {Lowest(w.used)} && Lowest(w.used) !in w.used)
    ensures Accounts(w, w', {}, {}, {})
  {
    assert Tables(w') == Tables(w) + (w'.used - w.used) && Orphans(w') == Orphans(w);
  }

  lemma BookedStep(w0: State, w: State, w': State, frames: seq<nat>, frames': seq<nat>, i: nat, page: nat, f: nat,
                   entry: Word)
    requires Booked(w0, w, frames, i) && OwnersOk(w) && LayStep(w, w', page, f, entry)
    requires frames' == frames || frames' == frames + [f]
    ensures Booked(w0, w', frames', i + 1)
  {
    LayAccounts(w, w', page, f, entry);
    BookedGain(w0, w, w', frames, frames', i, f);
  }

  lemma OrphansUsed(w: State)
    requires w.v.owner.Keys == w.used
    ensures Orphans(w) <= w.used
  {}

  lemma BookedGain(w0: State, w: State, w': State, frames: seq<nat>, frames': seq<nat>, i: nat, f: nat)
    requires Booked(w0, w, frames, i) && Accounts(w, w', {f}, {}, {f})
    requires frames' == frames || frames' == frames + [f]
    ensures Booked(w0, w', frames', i + 1)
  {
    hide Orphans, Tables, Accounts, ToSet;
    FreshGain(w0, w, w', f);
    AccountsGain(w0, w, w', Gained(w0, w), Gained(w0, w), {f}, {f});
    ToSetAppend(frames, f);
  }

  lemma ToSetAppend(frames: seq<nat>, f: nat)
    ensures ToSet(frames + [f]) == ToSet(frames) + {f}
  {}

  lemma FreshGain(w0: State, w: State, w': State, f: nat)
    requires w0.v.owner.Keys == w0.used && Accounts(w0, w, Gained(w0, w), {}, Gained(w0, w))
    requires Accounts(w, w', {f}, {}, {f})
    ensures Gained(w0, w') == Gained(w0, w) + {f} && f !in Gained(w0, w)
  {
    OrphansUsed(w0);
    hide Orphans, Tables;
    assert f !in w0.used;
  }

  /** When every page gone over is mapped the frames taken are the frames mapped. */
  lemma BookedAll(w0: State, w: State, frames: seq<nat>)
    requires Booked(w0, w, frames, |frames|) && Distinct(frames)
    ensures Gained(w0, w) == ToSet(frames)
  {
    DistinctCount(frames);
    SubsetCount(ToSet(frames), Gained(w0, w));
  }

  lemma LaidMounted(w: State, w': State, b: nat, frames: seq<nat>, f: nat, page: nat)
    requires f < FRAME_COUNT && Mounted(w, b, frames) && page == b + |frames| < STACK_END && OwnersOk(w)
               && LARGE_BASE <= b
    requires LayStep(w, w', page, f, MakeEntry(f * 0x1000, 3))
    requires CanMap(w.mem, w.dir, w.used + {f}, page)
    ensures Mounted(w', b, frames + [f])
    ensures forall p | page < p < STACK_END :: Walk(w'.mem, w.dir, p) == Walk(w.mem, w.dir, p)
  {
    var frames' := frames + [f];
    var entry := MakeEntry(f * 0x1000, 3);
    FrameEntry(f);
    MapTranslates(w.mem, w.used + {f}, w'.mem, w'.used, w.dir, page, entry);
    MapDirectory(w.mem, w.used + {f}, w'.mem, w'.used, w.dir, page, entry);
    forall i | 0 <= i < |frames'|
      ensures frames'[i] < FRAME_COUNT && Owns(w', frames'[i], Orphan) && Walk(w'.mem, w.dir, b + i) == Some(frames'[i])
    {
      if i < |frames| {
        assert Owns(w, frames[i], Orphan);
      }
    }
    assert f !in frames by {
      assert forall i | 0 <= i < |frames| :: Owns(w, frames[i], Orphan);
    }
  }

  /** A run of n pages cannot be laid: its last frame was the last free one, and its page needed a
      table, or frames ran out before. */
  ghost predicate Short(w0: State, b: nat, n: nat)
    requires w0.dir < FRAME_COUNT && b + n <= WINDOW
  {
    |w0.used| + Needed(w0.mem, w0.dir, b, n) > FRAME_COUNT
  }

  /** Exactly the last table is missing. */
  ghost predicate LastTableMissing(w0: State, b: nat, n: nat)
    requires w0.dir < FRAME_COUNT && 0 < n && b + n <= WINDOW
  {
    |w0.used| + Needed(w0.mem, w0.dir, b, n) == FRAME_COUNT + 1 && OpensTable(w0.mem, w0.dir, b, n - 1)
  }

  /** i pages have been gone over, and the last one was not mapped for want of a table; no frame is
      left. */
  ghost predicate Stuck(w0: State, w: State, b: nat, end: nat, frames: seq<nat>, i: nat) {
    && w0.dir == w.dir < FRAME_COUNT && 0 < i && b + i <= end <= STACK_END && LARGE_BASE <= b
    && |frames| == i - 1 && Mounted(w, b, frames) && Vacant(w, b, end) && AllUsed(w.used)
    && (forall p | b + i - 1 <= p < end :: Walk(w.mem, w.dir, p) == None) && LastTableMissing(w0, b, i)
    && TablesFor(w0, w, b, i - 1)
  }

  /** i pages have been gone over. */
  ghost predicate LaidOrStuck(w0: State, w: State, b: nat, end: nat, frames: seq<nat>, i: nat) {
    if |frames| == i then Laid(w0, w, b, end, frames) else Stuck(w0, w, b, end, frames, i)
  }

  /** What freeing a block that lacks its last page would free for it: frame 0, reserved at boot. */
  lemma TornFreesZero(w0: State, w: State, b: nat, end: nat, frames: seq<nat>, i: nat)
    requires Stuck(w0, w, b, end, frames, i) && OwnersOk(w)
    ensures PhysicalOf(w.mem, w.dir, b + i - 1) == 0 && Owns(w, 0, Boot)
  {
    var s := (b + i - 1) / 1024;
    assert !HasTable(w0.mem, w0.dir, s) && !SlotIn(b, i - 1, s);
    assert !HasTable(w.mem, w.dir, s);
  }

  lemma NotStuck(w0: State, w: State, b: nat, end: nat, frames: seq<nat>, i: nat)
    requires LaidOrStuck(w0, w, b, end, frames, i) && !AllUsed(w.used)
    ensures |frames| == i && Laid(w0, w, b, end, frames)
  {}

  lemma LaidShort(w0: State, w: State, b: nat, end: nat, frames: seq<nat>, i: nat, n: nat)
    requires LaidOrStuck(w0, w, b, end, frames, i) && i < n && b + n <= WINDOW && AllUsed(w.used)
    requires forall f | f in w.used :: f < FRAME_COUNT
    ensures Short(w0, b, n) && !LastTableMissing(w0, b, n)
  {
    AllUsedCount(w.used);
    NeededGrows(w0.mem, w0.dir, b, i, n);
    NeededGrows(w0.mem, w0.dir, b, i, n - 1);
  }

  lemma LaidAll(w0: State, w: State, b: nat, end: nat, frames: seq<nat>, n: nat)
    requires LaidOrStuck(w0, w, b, end, frames, n) && n > 0
    requires forall f | f in w.used :: f < FRAME_COUNT
    ensures |frames| == n <==> !Short(w0, b, n)
    ensures |frames| < n <==> LastTableMissing(w0, b, n)
    ensures n - 1 <= |frames| <= n
  {
    AllUsedCount(w.used);
  }

  /** m is how many of the n pages from b on get a frame and a table before frames run out. */
  ghost predicate Reached(w0: State, b: nat, n: nat, m: nat)
    requires w0.dir < FRAME_COUNT && b + n <= WINDOW
  {
    m <= n && !Short(w0, b, m) && (m < n ==> Short(w0, b, m + 1))
  }

  lemma GoneAsFar(w0: State, w: State, b: nat, end: nat, frames: seq<nat>, i: nat, n: nat)
    requires LaidOrStuck(w0, w, b, end, frames, i) && i <= n && b + n <= WINDOW && (i < n ==> AllUsed(w.used))
    requires forall f | f in w.used :: f < FRAME_COUNT
    ensures w0.dir < FRAME_COUNT && Reached(w0, b, n, |frames|)
  {
    AllUsedCount(w.used);
    NeededGrows(w0.mem, w0.dir, b, 0, |frames|);
  }

  /** There is only one such number. */
  lemma ReachedOnce(w0: State, b: nat, n: nat, m: nat, m': nat)
    requires w0.dir < FRAME_COUNT && b + n <= WINDOW && Reached(w0, b, n, m) && Reached(w0, b, n, m')
    ensures m' == m
  {
    if m < m' {
      NeededGrows(w0.mem, w0.dir, b, m + 1, m');
    } else if m' < m {
      NeededGrows(w0.mem, w0.dir, b, m' + 1, m);
    }
  }

  lemma LaidStuck(w0: State, w: State, w': State, b: nat, end: nat, frames: seq<nat>, f: nat)
    requires f < FRAME_COUNT && Laid(w0, w, b, end, frames) && b + |frames| < end && OwnersOk(w)
    requires !AllUsed(w.used) && f == Lowest(w.used) && w' == Allocated(w, f)
               && !CanMap(w.mem, w.dir, w.used + {f}, b + |frames|)
    requires Vacant(w', b, end) && OwnersOk(w')
    ensures LaidOrStuck(w0, w', b, end, frames, |frames| + 1)
  {
    AllUsedCount(w'.used);
    assert f !in w.used;
    assert forall i | 0 <= i < |frames| :: Owns(w, frames[i], Orphan) && Owns(w', frames[i], Orphan);
    var s := (b + |frames|) / 1024;
    assert !HasTable(w.mem, w.dir, s);
    assert !HasTable(w0.mem, w.dir, s) && !SlotIn(b, |frames|, s);
  }

  /** The frames laid once page b + |frames| has been gone over with frame f. */
  function NowLaid(w: State, b: nat, frames: seq<nat>, f: nat): seq<nat>
    requires w.dir < FRAME_COUNT && b + |frames| < WINDOW
  {
    if Walk(w.mem, w.dir, b + |frames|).Some? then frames + [f] else frames
  }

  lemma LayUnmapped(w: State, w': State, page: nat, f: nat, entry: Word)
    requires LayStep(w, w', page, f, entry) && w.v.owner.Keys == w.used
    requires !CanMap(w.mem, w.dir, w.used + {f}, page)
    ensures w' == Allocated(w, f)
  {}

  lemma LaidMapped(w0: State, w: State, b: nat, end: nat, frames: seq<nat>, f: nat)
    requires Laid(w0, w, b, end, frames + [f])
    ensures Walk(w.mem, w.dir, b + |frames|) == Some(f)
  {
    assert (frames + [f])[|frames|] == f;
  }

  lemma LaidUnmapped(w0: State, w: State, b: nat, end: nat, frames: seq<nat>)
    requires Laid(w0, w, b, end, frames) && b + |frames| < end
    ensures Walk(w.mem, w.dir, b + |frames|) == None
  {}

  lemma LayStepFrom(w: State, w1: State, w': State, page: nat, f: nat, entry: Word)
    requires w.dir < FRAME_COUNT && page < WINDOW && !AllUsed(w.used) && f == Lowest(w.used) && w1 == Allocated(w, f)
    requires MapStep(w1.mem, w1.used, w'.mem, w'.used, w1.dir, page, entry)
    requires w' == AfterMap(w1, w'.mem, w'.used, page)
    ensures LayStep(w, w', page, f, entry)
  {}

  lemma LayResult(w0: State, w: State, w': State, b: nat, end: nat, frames: seq<nat>, page: nat, f: nat)
    requires f < FRAME_COUNT && Laid(w0, w, b, end, frames) && page == b + |frames| < end && OwnersOk(w) && OwnersOk(w')
    requires LayStep(w, w', page, f, MakeEntry(f * 0x1000, 3)) && Vacant(w', b, end)
    ensures LaidOrStuck(w0, w', b, end, NowLaid(w', b, frames, f), |frames| + 1)
  {
    hide TablesOwned, BootOwned, BootExactly, TablesOk, Mounted, Vacant, MapStep;
    if CanMap(w.mem, w.dir, w.used + {f}, page) {
      LaidStep(w0, w, w', b, end, frames, page, f);
      LaidMapped(w0, w', b, end, frames, f);
      assert NowLaid(w', b, frames, f) == frames + [f];
    } else {
      LayUnmapped(w, w', page, f, MakeEntry(f * 0x1000, 3));
      LaidUnmapped(w0, w, b, end, frames);
      assert NowLaid(w', b, frames, f) == frames;
      LaidStuck(w0, w, w', b, end, frames, f);
    }
  }

  /** One page further, with the account of the frames. */
  lemma LayNext(w0: State, w: State, w1: State, w': State, b: nat, end: nat, frames: seq<nat>, page: nat, f: nat)
    requires f < FRAME_COUNT && Laid(w0, w, b, end, frames) && page == b + |frames| < end && OwnersOk(w) && OwnersOk(w')
    requires !AllUsed(w.used) && f == Lowest(w.used) && w1 == Allocated(w, f) && Booked(w0, w, frames, |frames|)
    requires MapStep(w1.mem, w1.used, w'.mem, w'.used, w1.dir, page, MakeEntry(f * 0x1000, 3))
    requires w' == AfterMap(w1, w'.mem, w'.used, page) && Vacant(w', b, end)
    ensures LaidOrStuck(w0, w', b, end, NowLaid(w', b, frames, f), |frames| + 1)
    ensures Booked(w0, w', NowLaid(w', b, frames, f), |frames| + 1)
  {
    hide Laid, Stuck, LaidOrStuck, Booked, OwnersOk, MapStep, Vacant, AllUsed;
    LaidPlace(w0, w, b, end, frames);
    LayStepFrom(w, w1, w', page, f, MakeEntry(f * 0x1000, 3));
    LayResult(w0, w, w', b, end, frames, page, f);
    BookedStep(w0, w, w', frames, NowLaid(w', b, frames, f), |frames|, page, f, MakeEntry(f * 0x1000, 3));
  }

  lemma LaidPlace(w0: State, w: State, b: nat, end: nat, frames: seq<nat>)
    requires Laid(w0, w, b, end, frames)
    ensures w.dir < FRAME_COUNT && end <= STACK_END
  {}

  /** The first frame of a large block, with its header: the magic and the page count. */
  function Headed(page: Frame, pages: Word): Frame {
    page[0 := LARGE_MAGIC][1 := pages]
  }

  /** Exactly when `kmalloc_large` succeeds: the block fits in what is left of the region and there
      are enough free frames for its pages and their tables. When only the last table is missing it
      goes wrong instead of failing: it faults on the header of a one-page block, and returns a
      longer block without its last page. */
  ghost predicate LargeOutcome(w: State, size: Word, out: Outcome)
    requires w.dir < FRAME_COUNT && LARGE_BASE <= w.nextLarge <= LARGE_END
  {
    var b, n := w.nextLarge, TruePages(size);
    if b + n > LARGE_END then out == Returned(0)
    else
      && (out.Returned? && out.ptr != 0 <==> !Short(w, b, n))
      && (out.PageFault? <==> LastTableMissing(w, b, n) && n == 1)
      && (out.Torn? <==> LastTableMissing(w, b, n) && n > 1)
  }

  /** Which frames laying the n pages from b on took: one for each page gone over, and those of the
      new page tables, as far as frames lasted. When it does not succeed those of the pages are left
      to nobody. */
  ghost predicate LayTook(w: State, w': State, b: nat, n: nat, good: bool, frames: seq<nat>, taken: set<nat>)
    requires w.dir < FRAME_COUNT && b + n <= WINDOW
  {
    && Accounts(w, w', taken, {}, if good then {} else taken)
    && Reached(w, b, n, |frames|) && TablesFor(w, w', b, |frames|)
    && ToSet(frames) <= taken && |frames| <= |taken| <= |frames| + 1
    && (if good then taken == ToSet(frames) && |frames| == n else AllUsed(w'.used))
    && (n > 0 ==> (taken == {} <==> AllUsed(w.used)))
  }

  lemma TookAccounted(w: State, w': State, b: nat, n: nat, good: bool, frames: seq<nat>, taken: set<nat>)
    requires w.dir < FRAME_COUNT && b + n <= WINDOW && LayTook(w, w', b, n, good, frames, taken)
    ensures Accounts(w, w', taken, {}, if good then {} else taken)
  {}

  /** Which frames a large allocation took: none when the region is full. */
  ghost predicate LargeTook(w: State, w': State, size: Word, out: Outcome, frames: seq<nat>, taken: set<nat>)
    requires w.dir < FRAME_COUNT && LARGE_BASE <= w.nextLarge <= LARGE_END
  {
    var b, n := w.nextLarge, TruePages(size);
    if b + n > LARGE_END then w' == w && frames == [] && taken == {}
    else LayTook(w, w', b, n, out.Returned? && out.ptr != 0, frames, taken)
  }

  /** The cursors play no part in it. */
  lemma LayTookFrom(w: State, w0: State, w': State, b: nat, n: nat, good: bool, frames: seq<nat>, taken: set<nat>)
    requires w0.dir == w.dir < FRAME_COUNT && b + n <= WINDOW
    requires w0.mem == w.mem && w0.used == w.used && w0.v == w.v && LayTook(w0, w', b, n, good, frames, taken)
    ensures LayTook(w, w', b, n, good, frames, taken)
  {}

  lemma LayFailed(w0: State, w: State, w': State, b: nat, end: nat, frames: seq<nat>, i: nat, n: nat)
    requires LaidOrStuck(w0, w, b, end, frames, i) && Booked(w0, w, frames, i)
    requires |frames| < n && i <= n && b + n <= WINDOW && (i < n ==> AllUsed(w.used))
    requires Gained(w0, w) == {} <==> AllUsed(w0.used)
    requires w'.dir == w.dir < FRAME_COUNT && w'.mem[w.dir] == w.mem[w.dir]
    requires w'.used == w.used && w'.v.owner == w.v.owner && forall f | f in w.used :: f < FRAME_COUNT
    ensures LayTook(w0, w', b, n, false, frames, Gained(w0, w))
  {
    GoneAsFar(w0, w, b, end, frames, i, n);
    GoneOver(w0, w, b, end, frames, i);
    SameTablesFor(w0, w, w', b, |frames|);
    assert Tables(w') == Tables(w) && Orphans(w') == Orphans(w);
  }

  lemma LayFinished(w0: State, w: State, w': State, b: nat, end: nat, frames: seq<nat>, n: nat)
    requires LaidOrStuck(w0, w, b, end, frames, n) && Booked(w0, w, frames, n) && |frames| == n && b + n <= WINDOW
    requires Gained(w0, w) == {} <==> AllUsed(w0.used)
    requires w'.dir == w.dir < FRAME_COUNT && w'.mem[w.dir] == w.mem[w.dir]
    requires w'.used == w.used && w'.v.owner == Claimed(w.v.owner, frames, b)
    requires forall f | f in w.used :: f < FRAME_COUNT
    ensures LayTook(w0, w', b, n, true, frames, Gained(w0, w))
  {
    GoneAsFar(w0, w, b, end, frames, n, n);
    GoneOver(w0, w, b, end, frames, n);
    SameTablesFor(w0, w, w', b, |frames|);
    ClaimedAccounts(w0, w, w', b, frames);
  }

  /** Laying pages takes no frame only when there is none at the start. */
  lemma NoneTaken(w0: State, w: State, b: nat, end: nat, frames: seq<nat>, i: nat, n: nat)
    requires LaidOrStuck(w0, w, b, end, frames, i) && Booked(w0, w, frames, i)
    requires 0 < n && (i < n ==> AllUsed(w.used)) && OwnersOk(w)
    ensures Gained(w0, w) == {} <==> AllUsed(w0.used)
  {
    hide TablesOk, TablesOwned, BootOwned, BootExactly, Mounted, Vacant;
    if i == 0 {
      NothingLaid(w0, w, b, end, frames);
    } else {
      assert Gained(w0, w) != {};
      var f :| f in Gained(w0, w);
      FrameGained(w0, w, f);
    }
  }

  lemma NothingLaid(w0: State, w: State, b: nat, end: nat, frames: seq<nat>)
    requires LaidOrStuck(w0, w, b, end, frames, 0) && Booked(w0, w, frames, 0)
    requires AllUsed(w.used) && forall f | f in w.used :: f < FRAME_COUNT
    ensures Gained(w0, w) == {} && AllUsed(w0.used)
  {
    GainedUsed(w0, w);
    AllUsedCount(w.used);
    AllUsedCount(w0.used);
  }

  lemma GainedUsed(w0: State, w: State)
    requires Accounts(w0, w, Gained(w0, w), {}, Gained(w0, w))
    ensures w0.used <= w.used
  {}

  lemma FrameGained(w0: State, w: State, f: nat)
    requires f in Gained(w0, w) && Accounts(w0, w, Gained(w0, w), {}, Gained(w0, w)) && OwnersOk(w)
    ensures !AllUsed(w0.used)
  {
    assert f in w.v.owner && f < FRAME_COUNT && f !in w0.used;
  }

  /** How laying the pages of a large block ends, whether or not its header is stored then. */
  lemma LayEnds(w0: State, w: State, w': State, b: nat, end: nat, frames: seq<nat>, i: nat, n: nat)
    requires LaidOrStuck(w0, w, b, end, frames, i) && Booked(w0, w, frames, i) && OwnersOk(w)
    requires 0 < n && i <= n && b + n <= WINDOW && (i < n ==> AllUsed(w.used))
    requires w'.dir == w.dir && w'.mem[w.dir] == w.mem[w.dir] && w'.used == w.used
    requires w'.v.owner == if |frames| == n then Claimed(w.v.owner, frames, b) else w.v.owner
    ensures |frames| == n <==> !Short(w0, b, n)
    ensures |frames| < n == i <==> LastTableMissing(w0, b, n)
    ensures LayTook(w0, w', b, n, |frames| == n, frames, Gained(w0, w))
  {
    hide Booked, LayTook, Laid, TablesOwned, BootOwned, BootExactly, TablesOk, Accounts;
    UsedFrames(w);
    NoneTaken(w0, w, b, end, frames, i, n);
    if i < n {
      LaidShort(w0, w, b, end, frames, i, n);
      FramesAtMost(w0, w, b, end, frames, i);
    } else {
      LaidAll(w0, w, b, end, frames, n);
    }
    if |frames| == n {
      LayFinished(w0, w, w', b, end, frames, n);
    } else {
      LayFailed(w0, w, w', b, end, frames, i, n);
    }
  }

  lemma FramesAtMost(w0: State, w: State, b: nat, end: nat, frames: seq<nat>, i: nat)
    requires LaidOrStuck(w0, w, b, end, frames, i)
    ensures i <= |frames| + 1 && |frames| <= i
  {}

  lemma GoneOver(w0: State, w: State, b: nat, end: nat, frames: seq<nat>, i: nat)
    requires LaidOrStuck(w0, w, b, end, frames, i)
    ensures TablesFor(w0, w, b, |frames|) && i - 1 <= |frames| <= i && Distinct(frames)
    ensures |frames| < i ==> AllUsed(w.used)
  {}

  /** The frames booked become the block's when it is handed out. */
  lemma ClaimedAccounts(w0: State, w: State, w': State, b: nat, frames: seq<nat>)
    requires Booked(w0, w, frames, |frames|) && Distinct(frames)
    requires w'.used == w.used && w'.v.owner == Claimed(w.v.owner, frames, b)
    ensures Accounts(w0, w', Gained(w0, w), {}, {}) && Gained(w0, w) == ToSet(frames)
  {
    BookedAll(w0, w, frames);
    OrphansUsed(w0);
    ClaimedSets(w, w', b, frames);
    AccountsClaimed(w0, w, w', ToSet(frames));
  }

  lemma AccountsClaimed(w0: State, w: State, w': State, taken: set<nat>)
    requires Accounts(w0, w, taken, {}, taken) && Orphans(w0) !! taken
    requires w'.used == w.used && Tables(w') == Tables(w) && Orphans(w') == Orphans(w) - taken
    ensures Accounts(w0, w', taken, {}, {})
  {
    hide Orphans, Tables;
    assert Orphans(w') == Orphans(w0);
  }

  lemma ClaimedSets(w: State, w': State, b: nat, frames: seq<nat>)
    requires w'.v.owner == Claimed(w.v.owner, frames, b) && ToSet(frames) <= Orphans(w)
    ensures Tables(w') == Tables(w) && Orphans(w') == Orphans(w) - ToSet(frames)
  {
    forall f ensures f in Tables(w') <==> f in Tables(w) {
      assert f in frames ==> f in ToSet(frames);
    }
    forall f ensures f in Orphans(w') <==> f in Orphans(w) && f !in ToSet(frames) {}
  }

  /** A large block of these n frames was added at the cursor, which moved past it. */
  ghost predicate LargeAdded(w: State, w': State, frames: seq<nat>, n: nat) {
    var b := w.nextLarge;
    && w'.nextLarge == b + n && b !in w.v.slices && |frames| == n
    && w'.v.slices == w.v.slices[b := Slice(frames, 0)]
  }

  lemma UsedFrames(w: State)
    requires OwnersOk(w)
    ensures w.dir < FRAME_COUNT && forall f | f in w.used :: f < FRAME_COUNT
  {}

  lemma LaidStart(w0: State, b: nat, end: nat)
    requires w0.dir < FRAME_COUNT && LARGE_BASE <= b <= end <= STACK_END && Vacant(w0, b, end)
    requires forall p | b <= p < end :: Walk(w0.mem, w0.dir, p) == None
    ensures Laid(w0, w0, b, end, [])
  {}

  /** What the header store finds: the first page mapped to the first frame, unless the only page is
      missing. */
  lemma HeaderPage(w0: State, w: State, b: nat, frames: seq<nat>, n: nat)
    requires LaidOrStuck(w0, w, b, b + n, frames, n) && n > 0
    ensures |frames| <= n && (Walk(w.mem, w.dir, b) == None <==> frames == [])
    ensures frames == [] ==> n == 1
    ensures frames != [] ==>
              Walk(w.mem, w.dir, b) == Some(frames[0]) && frames[0] < FRAME_COUNT && Owns(w, frames[0], Orphan)
    ensures Walk(w.mem, w.dir, b + n - 1) == None <==> |frames| < n
  {
    if frames != [] {
      assert Walk(w.mem, w.dir, b + 0) == Some(frames[0]);
    }
    if |frames| == n {
      assert Walk(w.mem, w.dir, b + (n - 1)) == Some(frames[n - 1]);
    }
  }

  /** With its header stored, a fully laid run becomes a large block. */
  lemma LaidVacant(w0: State, w: State, b: nat, end: nat, frames: seq<nat>, i: nat)
    requires LaidOrStuck(w0, w, b, end, frames, i)
    ensures Mounted(w, b, frames) && Vacant(w, b, end) && LARGE_BASE <= b
  {}

  lemma LargeAdopt(w: State, w': State, b: nat, n: nat, frames: seq<nat>)
    requires Inv(w') && LARGE_BASE <= b && b + n <= w.nextLarge <= LARGE_END && 0 < n == |frames| && n < 0x10_0000
    requires Mounted(w, b, frames) && Vacant(w, b, b + n)
    requires w' == WithFrame(w, frames[0], Headed(w.mem[frames[0]], n)) && Owns(w, frames[0], Orphan)
    requires forall p | 0 <= p < FRAME_COUNT :: Walk(w'.mem, w.dir, p) == Walk(w.mem, w.dir, p)
    ensures Inv(SliceAdopted(w', b, Slice(frames, 0))) && Kept(w', SliceAdopted(w', b, Slice(frames, 0)), {})
    ensures LiveBlocks(SliceAdopted(w', b, Slice(frames, 0)).v) == LiveBlocks(w'.v) + {Run(b)}
  {
    hide LiveBlocks;
    assert Vacant(w', b, b + n) by {
      forall p | b <= p < b + n ensures !Watched(w', p) {
        assert !Watched(w, p);
      }
    }
    assert Mounted(w', b, frames) by {
      forall i | 0 <= i < |frames|
        ensures Owns(w', frames[i], Orphan) && Walk(w'.mem, w.dir, b + i) == Some(frames[i])
      {
        assert Owns(w, frames[i], Orphan);
      }
    }
    SliceAdoptedInv(w', b, Slice(frames, 0));
    SliceAdoptedLive(w', b, Slice(frames, 0));
  }

  /** While a run of pages is taken down: from page i on each page still translates to its frame,
      which belongs to nobody; the pages before are unmapped. */
  ghost predicate Remaining(w: State, b: nat, end: nat, frames: seq<nat>, i: nat) {
    && w.dir < FRAME_COUNT && LARGE_BASE <= b && b + |frames| <= end <= STACK_END && i <= |frames|
    && Distinct(frames) && Vacant(w, b, end)
    && (forall k | i <= k < |frames| ::
          frames[k] < FRAME_COUNT && Owns(w, frames[k], Orphan) && Walk(w.mem, w.dir, b + k) == Some(frames[k]))
    && (forall p | b <= p < b + i :: Walk(w.mem, w.dir, p) == None)
  }

  lemma RemainingStart(w: State, b: nat, end: nat, frames: seq<nat>)
    requires Mounted(w, b, frames) && Vacant(w, b, end) && LARGE_BASE <= b && b + |frames| <= end <= STACK_END
    ensures Remaining(w, b, end, frames, 0)
  {}

  lemma RemainingPage(w: State, b: nat, end: nat, frames: seq<nat>, i: nat, page: nat)
    requires Remaining(w, b, end, frames, i) && i < |frames| && page == b + i && OwnersOk(w)
    ensures page < STACK_END && page != w.dir && !Watched(w, page)
    ensures frames[i] < FRAME_COUNT && Owns(w, frames[i], Orphan) && Walk(w.mem, w.dir, page) == Some(frames[i])
  {
    assert Walk(w.mem, w.dir, b + i) == Some(frames[i]);
  }

  lemma RemainingStep(w: State, w1: State, w': State, b: nat, end: nat, frames: seq<nat>, i: nat, page: nat, f: nat)
    requires Remaining(w, b, end, frames, i) && i < |frames| && page == b + i && f == frames[i] && OwnersOk(w)
    requires w1 == w.(mem := w1.mem) && UnmapStep(w.mem, w1.mem, w.dir, page) && w' == Released(w1, f)
    requires Vacant(w', b, end)
    ensures Remaining(w', b, end, frames, i + 1)
  {
    RemainingPage(w, b, end, frames, i, page);
    UnmapTranslates(w.mem, w.used, w1.mem, w.dir, page);
    forall k | i + 1 <= k < |frames|
      ensures frames[k] < FRAME_COUNT && Owns(w', frames[k], Orphan) && Walk(w'.mem, w.dir, b + k) == Some(frames[k])
    {
      assert Owns(w, frames[k], Orphan);
      assert frames[k] != frames[i];
    }
  }
}
