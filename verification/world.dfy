/** Who owns each physical frame, and the invariant that ties the frame bitmap, the page tables,
    the slab lists, the large blocks and the thread stacks together. */
module World {
  import opened Words
  import opened Hardware
  import opened Paging
  import opened SlabPage

  /** The kmalloc bins of 16 to 2048 bytes, then the thread pool: object sizes in words. */
  const CACHES: nat := 9
  const POOL: nat := 8

  function ObjectWords(c: nat): (s: nat)
    requires c < CACHES
    ensures 4 <= s <= 512
  {
    if c == POOL then 8
    else if c == 0 then 4
    else if c == 1 then 8
    else if c == 2 then 16
    else if c == 3 then 32
    else if c == 4 then 64
    else if c == 5 then 128
    else if c == 6 then 256
    else 512
  }

  /** Pages of the large-block region and of the stack region. */
  const LARGE_BASE: nat := 0xC_0000
  const LARGE_END: nat := 0xD_0000
  const STACK_BASE: nat := 0xD_0000
  const STACK_END: nat := 0xE_0000

  const LARGE_MAGIC: Word := 0x4C52_4745

  /** How a call ends: it returns a pointer (0 for failure), it touches an unmapped page and the
      page-fault handler halts the machine, or it returns a block that lacks a page. */
  datatype Outcome = Returned(ptr: Word) | PageFault | Torn(ptr: Word)

  predicate Succeeded(out: Outcome) {
    out.Returned? && out.ptr != 0
  }

  /** What a used frame is used for. */
  datatype Owner =
    | Boot
    | Table(pdi: nat)
    | Slab(cache: nat)
    | Page(base: nat)
    | Orphan

  /** A run of mapped pages: a large block's, or a thread's stack with the address of its thread. */
  datatype Slice = Slice(frames: seq<nat>, thread: Word)

  /** The ghost bookkeeping; `boot` holds the frames reserved at boot. */
  datatype View = View(
    owner: map<nat, Owner>,
    boot: set<nat>,
    slabs: seq<seq<nat>>,
    free: map<nat, seq<nat>>,
    slices: map<nat, Slice>)

  /** A snapshot of all state the memory stack consists of. The region cursors are page numbers. */
  datatype State = State(
    mem: Memory,
    dir: nat,
    used: set<nat>,
    heads: seq<Word>,
    caches: seq<Word>,
    nextLarge: nat,
    nextStack: nat,
    v: View)

  ghost predicate InUse(o: Owner) {
    o.Slab? || o.Page?
  }

  ghost predicate Owns(w: State, f: nat, o: Owner) {
    f in w.v.owner && w.v.owner[f] == o
  }

  /** The frames owned by directory slots are exactly the tables installed in those slots. */
  ghost predicate TablesOwned(mem: Memory, dir: nat, owner: map<nat, Owner>)
    requires dir < FRAME_COUNT
  {
    && (forall i | 0 <= i < 1023 && HasTable(mem, dir, i) ::
          TableOf(mem, dir, i) in owner && owner[TableOf(mem, dir, i)] == Table(i))
    && (forall f | f in owner && owner[f].Table? ::
          owner[f].pdi < 1023 && HasTable(mem, dir, owner[f].pdi) && TableOf(mem, dir, owner[f].pdi) == f)
  }

  /** The directory, frame 0 and everything from 0xC0000000 up are never handed out. */
  ghost predicate BootOwned(dir: nat, owner: map<nat, Owner>) {
    && dir in owner && owner[dir] == Boot
    && 0 in owner && owner[0] == Boot
    && (forall f | 0xC_0000 <= f < FRAME_COUNT :: f in owner && owner[f] == Boot)
  }

  ghost predicate BootExactly(owner: map<nat, Owner>, boot: set<nat>) {
    && (forall f | f in boot :: f in owner && owner[f] == Boot)
    && (forall f | f in owner && owner[f] == Boot :: f in boot)
  }

  /** Used frames are exactly the owned ones. */
  ghost predicate OwnersOk(w: State) {
    && w.dir < FRAME_COUNT
    && TablesOk(w.mem, w.dir, w.used)
    && w.v.owner.Keys == w.used
    && (forall f | f in w.used :: f < FRAME_COUNT)
    && BootOwned(w.dir, w.v.owner) && BootExactly(w.v.owner, w.v.boot)
    && TablesOwned(w.mem, w.dir, w.v.owner)
  }

  /** The directory entries and the owners among the tables decide TablesOwned. */
  lemma TablesOwnedSame(mem: Memory, mem': Memory, dir: nat, owner: map<nat, Owner>, owner': map<nat, Owner>)
    requires dir < FRAME_COUNT && mem'[dir] == mem[dir] && TablesOwned(mem, dir, owner)
    requires forall f | f in owner && owner[f].Table? :: f in owner' && owner'[f] == owner[f]
    requires forall f | f in owner' && owner'[f].Table? :: f in owner && owner[f] == owner'[f]
    ensures TablesOwned(mem', dir, owner')
  {
    forall i | 0 <= i < 1023
      ensures HasTable(mem', dir, i) == HasTable(mem, dir, i) && TableOf(mem', dir, i) == TableOf(mem, dir, i)
    {}
  }

  /** The pointer to entry i of a slab list, 0 past its end. */
  function SlabLink(list: seq<nat>, i: nat): Word
    requires forall k | 0 <= k < |list| :: list[k] < FRAME_COUNT
  {
    if i < |list| then list[i] * 0x1000 else 0
  }

  ghost predicate ShapeOk(w: State) {
    && |w.v.slabs| == |w.heads| == |w.caches| == CACHES
    && Distinct(w.caches)
    && w.dir < FRAME_COUNT
  }

  /** The header of slab i of the list points to slab i + 1. */
  ghost predicate ChainedAt(mem: Memory, list: seq<nat>, i: nat)
    requires i < |list| && forall k | 0 <= k < |list| :: list[k] < FRAME_COUNT
  {
    mem[list[i]][NEXT] == SlabLink(list, i + 1)
  }

  /** The list is linked through the headers of its frames, from head to 0. */
  ghost predicate Chain(mem: Memory, head: Word, list: seq<nat>) {
    && Distinct(list)
    && (forall i | 0 <= i < |list| :: list[i] < FRAME_COUNT)
    && head == SlabLink(list, 0)
    && (forall i | 0 <= i < |list| :: ChainedAt(mem, list, i))
  }

  /** The list of cache c holds frames of that cache only. */
  ghost predicate ListOk(w: State, c: nat)
    requires ShapeOk(w) && c < CACHES
  {
    && Chain(w.mem, w.heads[c], w.v.slabs[c])
    && (forall i | 0 <= i < |w.v.slabs[c]| :: Owns(w, w.v.slabs[c][i], Slab(c)))
  }

  /** A slab frame: identity-mapped, on its cache's list, its page well-formed and not all free. */
  ghost predicate SlabOk(w: State, f: nat, c: nat)
    requires ShapeOk(w)
  {
    && c < CACHES && 0 < f < 0xC_0000
    && f in w.v.slabs[c]
    && f in w.v.free
    && PageOk(w.mem[f], f, w.caches[c], ObjectWords(c), w.v.free[f])
    && |w.v.free[f]| < Capacity(ObjectWords(c))
    && Walk(w.mem, w.dir, f) == Some(f)
  }

  ghost predicate SlabsOk(w: State) {
    && ShapeOk(w)
    && (forall c | 0 <= c < CACHES :: ListOk(w, c))
    && (forall f | f in w.v.owner && w.v.owner[f].Slab? :: SlabOk(w, f, w.v.owner[f].cache))
  }

  /** Object o of slab frame f of cache c is allocated. */
  ghost predicate LiveObject(w: State, c: nat, f: nat, o: nat) {
    c < CACHES && Owns(w, f, Slab(c)) && IsObject(ObjectWords(c), o) && f in w.v.free && o !in w.v.free[f]
  }

  /** Pages b .. b + n lie below the cursor of the region that b is in; a stack leaves one more
      page, its guard. */
  ghost predicate Placed(w: State, b: nat, n: nat) {
    if b < LARGE_END then LARGE_BASE <= b && b + n <= w.nextLarge <= LARGE_END
    else b + n + 1 <= w.nextStack <= STACK_END
  }

  /** One past the last page that belongs to the slice at b, guard included. */
  function SliceEnd(b: nat, n: nat): nat {
    if b < LARGE_END then b + n else b + n + 1
  }

  /** The slice at b: its pages translate to its frames; a large block starts with its header, a
      stack's guard page is unmapped and its thread is a live pool object that points back. */
  ghost predicate SliceOk(w: State, b: nat, s: Slice) {
    var n := |s.frames|;
    && w.dir < FRAME_COUNT
    && n > 0 && Placed(w, b, n) && Distinct(s.frames)
    && (forall i | 0 <= i < n ::
          s.frames[i] < FRAME_COUNT && Owns(w, s.frames[i], Page(b)) && Walk(w.mem, w.dir, b + i) == Some(s.frames[i]))
    && (if b < LARGE_END then
          w.mem[s.frames[0]][0] == LARGE_MAGIC && w.mem[s.frames[0]][1] == n
        else
          && Walk(w.mem, w.dir, b + n) == None
          && ThreadOk(w, b, n, s.thread))
  }

  /** The thread structure at the address records the stack at b of n pages. */
  ghost predicate ThreadOk(w: State, b: nat, n: nat, thread: Word) {
    var f, o := thread / 0x1000, thread % 0x1000 / 4;
    && thread % 4 == 0
    && LiveObject(w, POOL, f, o)
    && w.mem[f][o + 2] == b * 0x1000 && w.mem[f][o + 7] == n
  }

  /** Slices do not overlap; one page, the guard, follows each stack. */
  ghost predicate Apart(slices: map<nat, Slice>) {
    forall b, b' | b in slices && b' in slices && b < b' :: SliceEnd(b, |slices[b].frames|) <= b'
  }

  /** The frames owned by slices are in their slices. */
  ghost predicate PagesOwned(owner: map<nat, Owner>, slices: map<nat, Slice>) {
    forall f | f in owner && owner[f].Page? :: owner[f].base in slices && f in slices[owner[f].base].frames
  }

  ghost predicate SlicesOk(w: State) {
    && w.dir < FRAME_COUNT
    && LARGE_BASE <= w.nextLarge <= LARGE_END && STACK_BASE <= w.nextStack <= STACK_END
    && (forall b | b in w.v.slices :: SliceOk(w, b, w.v.slices[b]))
    && Apart(w.v.slices)
    && PagesOwned(w.v.owner, w.v.slices)
    && (forall p | w.nextLarge <= p < LARGE_END :: Walk(w.mem, w.dir, p) == None)
    && (forall p | w.nextStack <= p < STACK_END :: Walk(w.mem, w.dir, p) == None)
  }

  /** The invariant of the memory stack. */
  ghost predicate Inv(w: State) {
    OwnersOk(w) && SlabsOk(w) && SlicesOk(w)
  }

  /** Slab and slice frames hold neither the directory nor a table. */
  lemma InUseIsNoTable(w: State, f: nat)
    requires OwnersOk(w) && f in w.v.owner && !w.v.owner[f].Table? && w.v.owner[f] != Boot
    ensures !IsTable(w.mem, w.dir, f)
  {}

  /** w' has the same slabs and slices as w, in the same frames with the same contents, and the
      same translations for their pages. */
  ghost predicate Untouched(w: State, w': State) {
    && w'.dir == w.dir < FRAME_COUNT && w'.heads == w.heads && w'.caches == w.caches
    && w'.nextLarge == w.nextLarge && w'.nextStack == w.nextStack
    && w'.v.slabs == w.v.slabs && w'.v.free == w.v.free && w'.v.slices == w.v.slices && w'.v.boot == w.v.boot
    && (forall f | f in w.v.owner && InUse(w.v.owner[f]) ::
          f < FRAME_COUNT && Owns(w', f, w.v.owner[f]) && w'.mem[f] == w.mem[f])
    && (forall f | f in w'.v.owner && InUse(w'.v.owner[f]) :: Owns(w, f, w'.v.owner[f]))
    && (forall p | 0 <= p < WINDOW && Watched(w, p) :: Walk(w'.mem, w.dir, p) == Walk(w.mem, w.dir, p))
  }

  /** The pages whose translation the invariant speaks about. */
  ghost predicate Watched(w: State, p: nat) {
    || (p in w.v.owner && w.v.owner[p].Slab?)
    || (exists b :: b in w.v.slices && b <= p < SliceEnd(b, |w.v.slices[b].frames|))
    || w.nextLarge <= p < LARGE_END
    || w.nextStack <= p < STACK_END
  }

  /** The frame rule: what leaves slabs and slices untouched keeps them well-formed. */
  lemma UntouchedSlabs(w: State, w': State)
    requires Inv(w) && Untouched(w, w')
    ensures SlabsOk(w')
  {
    forall c | 0 <= c < CACHES ensures ListOk(w', c) {
      assert ListOk(w, c);
      var list := w.v.slabs[c];
      forall i | 0 <= i < |list| ensures Owns(w', list[i], Slab(c)) && ChainedAt(w'.mem, list, i) {
        assert Owns(w, list[i], Slab(c)) && ChainedAt(w.mem, list, i);
      }
    }
    forall f | f in w'.v.owner && w'.v.owner[f].Slab? ensures SlabOk(w', f, w'.v.owner[f].cache) {
      assert SlabOk(w, f, w.v.owner[f].cache);
      assert Watched(w, f);
    }
  }

  lemma UntouchedSlices(w: State, w': State)
    requires Inv(w) && Untouched(w, w')
    ensures SlicesOk(w')
  {
    forall b | b in w'.v.slices ensures SliceOk(w', b, w'.v.slices[b]) {
      UntouchedSlice(w, w', b);
    }
    forall p | w.nextLarge <= p < LARGE_END ensures Walk(w'.mem, w'.dir, p) == None {
      assert Watched(w, p);
    }
    forall p | w.nextStack <= p < STACK_END ensures Walk(w'.mem, w'.dir, p) == None {
      assert Watched(w, p);
    }
  }

  lemma UntouchedSlice(w: State, w': State, b: nat)
    requires Inv(w) && Untouched(w, w') && b in w.v.slices
    ensures SliceOk(w', b, w.v.slices[b])
  {
    hide SlabsOk, OwnersOk, ThreadOk;
    var s := w.v.slices[b];
    assert SliceOk(w, b, s);
    forall i | 0 <= i < |s.frames|
      ensures Owns(w', s.frames[i], Page(b)) && Walk(w'.mem, w'.dir, b + i) == Some(s.frames[i])
    {
      assert Owns(w, s.frames[i], Page(b));
      assert Watched(w, b + i);
    }
    if b < LARGE_END {
      assert Owns(w, s.frames[0], Page(b));
    } else {
      assert Watched(w, b + |s.frames|);
      UntouchedThread(w, w', b, |s.frames|, s.thread);
    }
  }

  lemma UntouchedThread(w: State, w': State, b: nat, n: nat, thread: Word)
    requires Inv(w) && Untouched(w, w') && ThreadOk(w, b, n, thread)
    ensures ThreadOk(w', b, n, thread)
  {
    var f, o := thread / 0x1000, thread % 0x1000 / 4;
    assert LiveObject(w, POOL, f, o);
    assert Owns(w', f, Slab(POOL)) && w'.mem[f] == w.mem[f];
  }

  lemma UntouchedTrans(w: State, w1: State, w2: State)
    requires Untouched(w, w1) && Untouched(w1, w2)
    ensures Untouched(w, w2)
  {
    forall p | 0 <= p < WINDOW && Watched(w, p) ensures Walk(w2.mem, w.dir, p) == Walk(w.mem, w.dir, p) {
      assert Watched(w1, p);
    }
  }

  /** The frames that page tables own. */
  ghost function Tables(w: State): set<nat> {
    set f | f in w.v.owner && w.v.owner[f].Table?
  }

  /** The used frames that belong to nobody. */
  ghost function Orphans(w: State): set<nat> {
    set f | f in w.v.owner && w.v.owner[f] == Orphan
  }

  /** The change of the used frames from w to w': gained and lost ones, and fresh frames for new page
      tables; of those gained, some are left to nobody. */
  ghost predicate Accounts(w: State, w': State, gained: set<nat>, lost: set<nat>, orphaned: set<nat>) {
    && w'.used == (w.used - lost) + gained + Tables(w')
    && gained !! w.used && gained !! Tables(w') && lost <= w.used && orphaned <= gained
    && Tables(w) <= Tables(w') && Tables(w') * w.used == Tables(w)
    && Orphans(w') == Orphans(w) + orphaned
  }

  lemma AccountsSame(w: State, w': State)
    requires OwnersOk(w) && w'.used == w.used && Tables(w') == Tables(w) && Orphans(w') == Orphans(w)
    ensures Accounts(w, w', {}, {}, {})
  {}

  lemma AccountsLost(w: State, w': State, lost: set<nat>)
    requires lost <= w.used && w'.used == w.used - lost && Tables(w) <= w.used && Tables(w) !! lost
    requires Tables(w') == Tables(w) && Orphans(w') == Orphans(w)
    ensures Accounts(w, w', {}, lost, {})
  {}

  /** Two changes that only gain, one after the other. */
  lemma AccountsGain(w: State, w1: State, w2: State, g1: set<nat>, o1: set<nat>, g2: set<nat>, o2: set<nat>)
    requires Accounts(w, w1, g1, {}, o1) && Accounts(w1, w2, g2, {}, o2)
    ensures Accounts(w, w2, g1 + g2, {}, o1 + o2)
  {}

  /** Two changes that only lose, one after the other. */
  lemma AccountsLose(w: State, w1: State, w2: State, l1: set<nat>, l2: set<nat>)
    requires Accounts(w, w1, {}, l1, {}) && Accounts(w1, w2, {}, l2, {}) && Tables(w2) == Tables(w1) == Tables(w)
    ensures Accounts(w, w2, {}, l1 + l2, {})
  {}
}
