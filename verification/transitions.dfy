/** Every change the memory stack makes, as a step between snapshots that keeps the invariant and
    leaves all other allocated blocks as they were. */
module Transitions {
  import opened Words
  import opened Hardware
  import opened Paging
  import opened SlabPage
  import opened World

  /** An allocated block: a slab object, or a run of pages. */
  datatype Block = Object(cache: nat, frame: nat, word: nat) | Run(base: nat)

  ghost predicate LiveBlock(w: State, x: Block) {
    match x
    case Object(c, f, o) => LiveObject(w, c, f, o)
    case Run(b) => b in w.v.slices
  }

  /** All allocated blocks. */
  ghost function LiveBlocks(v: View): set<Block> {
    (set f, o | f in v.owner && 0 <= o < 1024 && LiveAt(v, f, o) :: Object(v.owner[f].cache, f, o))
    + (set b | b in v.slices :: Run(b))
  }

  ghost predicate LiveAt(v: View, f: nat, o: nat)
    requires f in v.owner
  {
    && v.owner[f].Slab? && v.owner[f].cache < CACHES && f in v.free
    && IsObject(ObjectWords(v.owner[f].cache), o) && o !in v.free[f]
  }

  /** The frames that a block lies in. */
  ghost function FramesOf(v: View, x: Block): set<nat> {
    match x
    case Object(c, f, o) => {f}
    case Run(b) => if b in v.slices then ToSet(v.slices[b].frames) else {}
  }

  lemma LiveBlocksAre(w: State)
    ensures forall x :: x in LiveBlocks(w.v) <==> LiveBlock(w, x)
  {
    forall x ensures x in LiveBlocks(w.v) <==> LiveBlock(w, x) {
      match x
      case Object(c, f, o) =>
        assert LiveObject(w, c, f, o) ==> o < 1024 && LiveAt(w.v, f, o);
      case Run(b) =>
    }
  }

  /** The slab owners, the free lists and the slices decide which blocks are live. */
  lemma SameLiveBlocks(w: State, w': State)
    requires w'.v.free == w.v.free && w'.v.slices == w.v.slices
    requires forall f | f in w.v.owner && w.v.owner[f].Slab? :: Owns(w', f, w.v.owner[f])
    requires forall f | f in w'.v.owner && w'.v.owner[f].Slab? :: Owns(w, f, w'.v.owner[f])
    ensures LiveBlocks(w'.v) == LiveBlocks(w.v)
  {
    LiveBlocksAre(w);
    LiveBlocksAre(w');
    hide LiveBlocks;
    forall x ensures LiveBlock(w', x) <==> LiveBlock(w, x) {}
  }

  lemma UntouchedLive(w: State, w': State)
    requires Untouched(w, w')
    ensures LiveBlocks(w'.v) == LiveBlocks(w.v)
  {
    SameLiveBlocks(w, w');
  }

  /** The block has the same place and the same contents in both snapshots. */
  ghost predicate SameBlock(w: State, w': State, x: Block) {
    match x
    case Object(c, f, o) =>
      c < CACHES && f < FRAME_COUNT && o + ObjectWords(c) <= 1024 &&
      forall k | o <= k < o + ObjectWords(c) :: w'.mem[f][k] == w.mem[f][k]
    case Run(b) =>
      b in w.v.slices && b in w'.v.slices && w'.v.slices[b] == w.v.slices[b] &&
      forall f | f in w.v.slices[b].frames :: f < FRAME_COUNT && w'.mem[f] == w.mem[f]
  }

  /** All blocks that were allocated still are, unchanged, but for the excepted ones; the frames
      reserved at boot still are. */
  ghost predicate Kept(w: State, w': State, except: set<Block>) {
    && w'.v.boot == w.v.boot
    && forall x | LiveBlock(w, x) && x !in except :: LiveBlock(w', x) && SameBlock(w, w', x)
  }

  lemma KeptTrans(w: State, w1: State, w2: State, s: set<Block>, t: set<Block>)
    requires Kept(w, w1, s) && Kept(w1, w2, t)
    ensures Kept(w, w2, s + t)
  {
    forall x | LiveBlock(w, x) && x !in s + t ensures LiveBlock(w2, x) && SameBlock(w, w2, x) {
      assert LiveBlock(w1, x) && SameBlock(w, w1, x);
      assert LiveBlock(w2, x) && SameBlock(w1, w2, x);
    }
  }

  lemma KeptChain(w: State, w1: State, w2: State)
    requires Kept(w, w1, {}) && Kept(w1, w2, {})
    ensures Kept(w, w2, {})
  {
    KeptTrans(w, w1, w2, {}, {});
  }

  lemma KeptThen(w: State, w1: State, w2: State, s: set<Block>)
    requires Kept(w, w1, s) && Kept(w1, w2, {})
    ensures Kept(w, w2, s)
  {
    KeptTrans(w, w1, w2, s, {});
    assert s + {} == s;
  }

  lemma KeptAfter(w: State, w1: State, w2: State, s: set<Block>)
    requires Kept(w, w1, {}) && Kept(w1, w2, s)
    ensures Kept(w, w2, s)
  {
    KeptTrans(w, w1, w2, {}, s);
    assert {} + s == s;
  }

  lemma KeptRefl(w: State)
    requires Inv(w)
    ensures Kept(w, w, {})
  {
    UntouchedKept(w, w);
  }

  lemma UntouchedKept(w: State, w': State)
    requires Inv(w) && Untouched(w, w')
    ensures Kept(w, w', {})
  {
    forall x | LiveBlock(w, x) ensures LiveBlock(w', x) && SameBlock(w, w', x) {
      match x
      case Object(c, f, o) =>
        assert Owns(w, f, Slab(c));
      case Run(b) =>
        assert SliceOk(w, b, w.v.slices[b]);
        forall f | f in w.v.slices[b].frames ensures f < FRAME_COUNT && w'.mem[f] == w.mem[f] {
          var i :| 0 <= i < |w.v.slices[b].frames| && w.v.slices[b].frames[i] == f;
          assert Owns(w, w.v.slices[b].frames[i], Page(b));
        }
    }
  }

  lemma UntouchedInv(w: State, w': State)
    requires Inv(w) && Untouched(w, w') && OwnersOk(w')
    ensures Inv(w') && Kept(w, w', {})
  {
    UntouchedSlabs(w, w');
    UntouchedSlices(w, w');
    UntouchedKept(w, w');
  }

  /** `pmm_alloc`: the frame is used and belongs to nobody yet. */
  function Allocated(w: State, f: nat): State {
    w.(used := w.used + {f}, v := w.v.(owner := w.v.owner[f := Orphan]))
  }

  lemma AllocatedInv(w: State, f: nat)
    requires Inv(w) && f < FRAME_COUNT && f !in w.used
    ensures Inv(Allocated(w, f)) && Untouched(w, Allocated(w, f)) && Kept(w, Allocated(w, f), {})
  {
    hide SlabsOk, SlicesOk;
    var w' := Allocated(w, f);
    TablesOwnedSame(w.mem, w.mem, w.dir, w.v.owner, w'.v.owner);
    UntouchedInv(w, w');
  }

  lemma AllocatedTables(w: State, f: nat)
    requires OwnersOk(w) && f < FRAME_COUNT
    ensures TablesOk(w.mem, w.dir, w.used + {f})
  {}

  lemma AllocatedAccounts(w: State, f: nat)
    requires w.v.owner.Keys == w.used && f !in w.used
    ensures Accounts(w, Allocated(w, f), {f}, {}, {f})
  {
    assert Tables(Allocated(w, f)) == Tables(w) && Orphans(Allocated(w, f)) == Orphans(w) + {f};
  }

  /** `pmm_free` of a frame that belongs to nobody. */
  function Released(w: State, f: nat): State {
    w.(used := w.used - {f}, v := w.v.(owner := w.v.owner - {f}))
  }

  lemma TablesOkUsed(mem: Memory, dir: nat, used: set<nat>, used': set<nat>, f: nat)
    requires TablesOk(mem, dir, used) && !IsTable(mem, dir, f) && used' == used - {f}
    ensures TablesOk(mem, dir, used')
  {}

  lemma ReleasedInv(w: State, f: nat)
    requires Inv(w) && Owns(w, f, Orphan)
    ensures Inv(Released(w, f)) && Untouched(w, Released(w, f)) && Kept(w, Released(w, f), {})
  {
    hide SlabsOk, SlicesOk;
    var w' := Released(w, f);
    TablesOwnedSame(w.mem, w.mem, w.dir, w.v.owner, w'.v.owner);
    TablesOkUsed(w.mem, w.dir, w.used, w'.used, f);
    UntouchedInv(w, w');
  }

  /** Tables and boot frames keep their owners, the directory and the tables their contents. */
  ghost predicate Steady(w: State, w': State) {
    && w'.dir == w.dir < FRAME_COUNT && w'.used == w.used && w'.v.owner.Keys == w.v.owner.Keys && w'.v.boot == w.v.boot
    && (forall f | f in w.v.owner && Fixed(w.v.owner[f]) :: f < FRAME_COUNT && w'.v.owner[f] == w.v.owner[f])
    && w'.mem[w.dir] == w.mem[w.dir]
    && (forall f | f in w.v.owner && w.v.owner[f].Table? :: w'.mem[f] == w.mem[f])
    && (forall f | f in w.v.owner && Fixed(w'.v.owner[f]) :: Fixed(w.v.owner[f]))
  }

  ghost predicate Fixed(o: Owner) {
    o == Boot || o.Table?
  }

  lemma SteadyOwners(w: State, w': State)
    requires OwnersOk(w) && Steady(w, w')
    ensures OwnersOk(w')
    ensures forall p | 0 <= p < FRAME_COUNT :: Walk(w'.mem, w.dir, p) == Walk(w.mem, w.dir, p)
  {
    forall f | 0 <= f < FRAME_COUNT && IsTable(w.mem, w.dir, f) ensures w'.mem[f] == w.mem[f] {
      assert f != w.dir ==> w.v.owner[f].Table?;
    }
    SameTables(w.mem, w'.mem, w.dir, w.used);
    TablesOwnedSame(w.mem, w'.mem, w.dir, w.v.owner, w'.v.owner);
  }

  function WithFrame(w: State, f: nat, contents: Frame): State
    requires f < FRAME_COUNT
  {
    w.(mem := w.mem[f := contents])
  }

  /** A frame that no slab, block, stack or paging structure uses. */
  ghost predicate Spare(w: State, f: nat) {
    f in w.v.owner && (w.v.owner[f] == Orphan || (w.v.owner[f] == Boot && f != w.dir))
  }

  lemma SpareIsNoTable(w: State, f: nat)
    requires OwnersOk(w) && Spare(w, f)
    ensures f < FRAME_COUNT && !IsTable(w.mem, w.dir, f)
  {}

  lemma NotTheDirectory(w: State, f: nat)
    requires OwnersOk(w) && Owns(w, f, Orphan)
    ensures f < FRAME_COUNT && Spare(w, f) && !IsTable(w.mem, w.dir, f) && f != w.dir
  {}

  /** New contents for a spare frame. */
  lemma SpareWritten(w: State, f: nat, contents: Frame)
    requires Inv(w) && f < FRAME_COUNT && Spare(w, f)
    ensures Inv(WithFrame(w, f, contents)) && Untouched(w, WithFrame(w, f, contents))
    ensures Kept(w, WithFrame(w, f, contents), {})
    ensures forall p | 0 <= p < FRAME_COUNT :: Walk(w.mem[f := contents], w.dir, p) == Walk(w.mem, w.dir, p)
  {
    SteadyOwners(w, WithFrame(w, f, contents));
    UntouchedInv(w, WithFrame(w, f, contents));
  }

  /** The owners after a map: a new table frame belongs to its directory slot. */
  function MapOwner(owner: map<nat, Owner>, used': set<nat>, pdi: nat): map<nat, Owner> {
    map f | f in used' :: if f in owner then owner[f] else Table(pdi)
  }

  function AfterMap(w: State, mem': Memory, used': set<nat>, page: nat): State {
    w.(mem := mem', used := used', v := w.v.(owner := MapOwner(w.v.owner, used', page / 1024)))
  }

  /** A map makes no frame a boot frame. */
  lemma MapOwnerBoot(dir: nat, owner: map<nat, Owner>, boot: set<nat>, used': set<nat>, pdi: nat)
    requires owner.Keys <= used' && BootOwned(dir, owner) && BootExactly(owner, boot)
    ensures BootOwned(dir, MapOwner(owner, used', pdi)) && BootExactly(MapOwner(owner, used', pdi), boot)
    ensures MapOwner(owner, used', pdi).Keys == used'
  {}

  /** The owners among the tables stay right when the directory gains at most one table, in a new
      frame. */
  lemma MapOwnerTables(mem: Memory, mem': Memory, dir: nat, owner: map<nat, Owner>, used': set<nat>, pdi: nat)
    requires dir < FRAME_COUNT && pdi < 1023 && TablesOwned(mem, dir, owner) && owner.Keys <= used'
    requires forall i | 0 <= i < 1023 && i != pdi :: mem'[dir][i] == mem[dir][i]
    requires (mem'[dir] == mem[dir] && used' == owner.Keys)
          || (HasTable(mem', dir, pdi) && !HasTable(mem, dir, pdi)
              && TableOf(mem', dir, pdi) !in owner && used' == owner.Keys + {TableOf(mem', dir, pdi)})
    ensures TablesOwned(mem', dir, MapOwner(owner, used', pdi))
  {
    forall i | 0 <= i < 1023 && i != pdi
      ensures HasTable(mem', dir, i) == HasTable(mem, dir, i) && TableOf(mem', dir, i) == TableOf(mem, dir, i)
    {}
  }

  /** A map that gets no table leaves the owners alone. */
  lemma AfterNoMap(w: State, page: nat)
    requires w.v.owner.Keys == w.used
    ensures AfterMap(w, w.mem, w.used, page) == w
  {
    assert MapOwner(w.v.owner, w.used, page / 1024) == w.v.owner;
  }

  lemma MapOwners(w: State, mem': Memory, used': set<nat>, page: nat, entry: Word)
    requires Inv(w) && page < WINDOW && page != w.dir
    requires MapStep(w.mem, w.used, mem', used', w.dir, page, entry)
    ensures OwnersOk(AfterMap(w, mem', used', page))
  {
    hide SlabsOk, SlicesOk, TablesOwned, BootOwned, BootExactly, MapOwner, TablesOk;
    MapTranslates(w.mem, w.used, mem', used', w.dir, page, entry);
    MapDirectory(w.mem, w.used, mem', used', w.dir, page, entry);
    MapOwnerBoot(w.dir, w.v.owner, w.v.boot, used', page / 1024);
    MapOwnerTables(w.mem, mem', w.dir, w.v.owner, used', page / 1024);
  }

  /** A map writes to no frame of a slab or slice, and to none that belongs to nobody. */
  lemma MapSpares(w: State, mem': Memory, used': set<nat>, page: nat, entry: Word)
    requires OwnersOk(w) && page < WINDOW && MapStep(w.mem, w.used, mem', used', w.dir, page, entry)
    ensures forall f | f in w.v.owner && (InUse(w.v.owner[f]) || w.v.owner[f].Orphan?) ::
              f < FRAME_COUNT && mem'[f] == w.mem[f]
  {
    forall f | f in w.v.owner && (InUse(w.v.owner[f]) || w.v.owner[f].Orphan?)
      ensures f < FRAME_COUNT && mem'[f] == w.mem[f]
    {
      InUseIsNoTable(w, f);
      MapFrame(w.mem, w.used, mem', used', w.dir, page, entry, f);
    }
  }

  /** `paging_map` of a page that no slab and no slice uses. */
  lemma MappedInv(w: State, mem': Memory, used': set<nat>, page: nat, entry: Word)
    requires Inv(w) && page < WINDOW && page != w.dir && !Watched(w, page)
    requires MapStep(w.mem, w.used, mem', used', w.dir, page, entry)
    ensures Inv(AfterMap(w, mem', used', page)) && Untouched(w, AfterMap(w, mem', used', page))
    ensures Kept(w, AfterMap(w, mem', used', page), {})
    ensures forall f | f in w.v.owner && w.v.owner[f].Orphan? ::
              f < FRAME_COUNT && Owns(AfterMap(w, mem', used', page), f, Orphan) && mem'[f] == w.mem[f]
  {
    var w' := AfterMap(w, mem', used', page);
    MapOwners(w, mem', used', page, entry);
    MapTranslates(w.mem, w.used, mem', used', w.dir, page, entry);
    MapDirectory(w.mem, w.used, mem', used', w.dir, page, entry);
    MapSpares(w, mem', used', page, entry);
    hide MapStep, OwnersOk, SlabsOk, SlicesOk, Watched;
    MappedUntouched(w, w', page);
    UntouchedInv(w, w');
  }

  lemma MappedUntouched(w: State, w': State, page: nat)
    requires w.dir < FRAME_COUNT && w.v.owner.Keys == w.used <= w'.used && !Watched(w, page)
    requires w' == AfterMap(w, w'.mem, w'.used, page)
    requires forall f | f in w.v.owner && InUse(w.v.owner[f]) :: f < FRAME_COUNT && w'.mem[f] == w.mem[f]
    requires forall p | 0 <= p < WINDOW && p != page :: Walk(w'.mem, w.dir, p) == Walk(w.mem, w.dir, p)
    ensures Untouched(w, w')
  {
    hide Watched, Walk;
  }

  /** `paging_unmap` of a page that no slab and no slice uses. */
  lemma UnmappedInv(w: State, mem': Memory, page: nat)
    requires Inv(w) && page < WINDOW && page != w.dir && !Watched(w, page)
    requires UnmapStep(w.mem, mem', w.dir, page)
    ensures Inv(w.(mem := mem')) && Untouched(w, w.(mem := mem')) && Kept(w, w.(mem := mem'), {})
  {
    var w' := w.(mem := mem');
    UnmapTranslates(w.mem, w.used, mem', w.dir, page);
    TablesOwnedSame(w.mem, mem', w.dir, w.v.owner, w.v.owner);
    forall f | f in w.v.owner && InUse(w.v.owner[f]) ensures mem'[f] == w.mem[f] {
      InUseIsNoTable(w, f);
    }
    UntouchedInv(w, w');
  }

  /** New contents and a new free list for slab frame f, in which every live object but the spared
      one keeps its words. */
  function SlabChanged(w: State, f: nat, contents: Frame, free: seq<nat>): State
    requires f < FRAME_COUNT
  {
    w.(mem := w.mem[f := contents], v := w.v.(free := w.v.free[f := free]))
  }

  ghost predicate ChangeOk(w: State, c: nat, f: nat, contents: Frame, free: seq<nat>, spared: nat) {
    && c < CACHES && Owns(w, f, Slab(c)) && ShapeOk(w) && f in w.v.free
    && PageOk(contents, f, w.caches[c], ObjectWords(c), free)
    && |free| < Capacity(ObjectWords(c))
    && contents[NEXT] == w.mem[f][NEXT]
    && (forall o: nat | IsObject(ObjectWords(c), o) && o !in w.v.free[f] && o != spared :: o !in free)
    && (forall o: nat, k: nat | IsObject(ObjectWords(c), o) && o !in w.v.free[f] && o != spared
        && o <= k < o + ObjectWords(c) ::
          contents[k] == w.mem[f][k])
  }

  /** No thread structure lives in the object. */
  ghost predicate NoThread(w: State, c: nat, f: nat, o: nat)
    requires f < FRAME_COUNT && o < 1024
  {
    c == POOL ==> forall b | b in w.v.slices && b >= LARGE_END :: w.v.slices[b].thread != Address(f, o)
  }

  /** The slices and their pages are the same in both snapshots. */
  ghost predicate SameSlices(w: State, w': State) {
    && w'.v.slices == w.v.slices && w'.v.boot == w.v.boot && w'.nextLarge == w.nextLarge && w'.nextStack == w.nextStack
    && (forall f | f in w.v.owner && w.v.owner[f].Page? :: f in w'.v.owner && w'.v.owner[f] == w.v.owner[f])
    && (forall f | f in w'.v.owner && w'.v.owner[f].Page? :: f in w.v.owner && w'.v.owner[f] == w.v.owner[f])
  }

  /** No block in the set is the structure of a thread with a stack. */
  ghost predicate NoThreadIn(w: State, except: set<Block>) {
    forall x | x in except ::
      x.Object? && x.frame < FRAME_COUNT && x.word < 1024 && NoThread(w, x.cache, x.frame, x.word)
  }

  /** Slices survive a step that keeps all blocks but some without a thread in them. */
  lemma KeptSlices(w: State, w': State, except: set<Block>)
    requires SlicesOk(w) && w'.dir == w.dir && SameSlices(w, w')
    requires Kept(w, w', except) && NoThreadIn(w, except)
    requires forall p | 0 <= p < FRAME_COUNT :: Walk(w'.mem, w.dir, p) == Walk(w.mem, w.dir, p)
    ensures SlicesOk(w')
  {
    forall b | b in w'.v.slices ensures SliceOk(w', b, w'.v.slices[b]) {
      KeptSlice(w, w', except, b);
    }
  }

  lemma KeptSlice(w: State, w': State, except: set<Block>, b: nat)
    requires b in w.v.slices && SliceOk(w, b, w.v.slices[b]) && w'.dir == w.dir && SameSlices(w, w')
    requires Kept(w, w', except) && NoThreadIn(w, except)
    requires forall p | 0 <= p < FRAME_COUNT :: Walk(w'.mem, w.dir, p) == Walk(w.mem, w.dir, p)
    ensures SliceOk(w', b, w.v.slices[b])
  {
    var s := w.v.slices[b];
    assert LiveBlock(w, Run(b)) && SameBlock(w, w', Run(b));
    assert s.frames[0] in s.frames;
    if b >= LARGE_END {
      KeptThread(w, w', except, b, |s.frames|, s.thread);
    }
  }

  lemma KeptThread(w: State, w': State, except: set<Block>, b: nat, n: nat, thread: Word)
    requires b in w.v.slices && b >= LARGE_END && w.v.slices[b].thread == thread
    requires Kept(w, w', except) && ThreadOk(w, b, n, thread) && NoThreadIn(w, except)
    ensures ThreadOk(w', b, n, thread)
  {
    var f, o := thread / 0x1000, thread % 0x1000 / 4;
    assert Address(f, o) == thread;
    assert LiveBlock(w, Object(POOL, f, o));
    assert SameBlock(w, w', Object(POOL, f, o));
  }

  /** What every step on the slab side comes down to. */
  lemma StepInv(w: State, w': State, except: set<Block>)
    requires Inv(w) && Steady(w, w') && SameSlices(w, w')
    requires Kept(w, w', except) && NoThreadIn(w, except)
    requires SlabsOk(w')
    ensures Inv(w')
  {
    SteadyOwners(w, w');
    KeptSlices(w, w', except);
  }

  lemma SliceFrames(w: State, b: nat)
    requires SlicesOk(w) && b in w.v.slices
    ensures forall f | f in w.v.slices[b].frames :: f < FRAME_COUNT && Owns(w, f, Page(b))
  {
    assert SliceOk(w, b, w.v.slices[b]);
  }

  /** Blocks are kept when their frames' contents are, slab headers aside. */
  lemma FramesKept(w: State, w': State, except: set<Block>)
    requires SlicesOk(w) && SameSlices(w, w')
    requires forall c: nat, f: nat, o: nat | LiveObject(w, c, f, o) && Object(c, f, o) !in except ::
               LiveObject(w', c, f, o) && SameBlock(w, w', Object(c, f, o))
    requires forall f | f in w.v.owner && w.v.owner[f].Page? :: f < FRAME_COUNT && w'.mem[f] == w.mem[f]
    ensures Kept(w, w', except)
  {
    forall x | LiveBlock(w, x) && x !in except ensures LiveBlock(w', x) && SameBlock(w, w', x) {
      match x
      case Object(c, f, o) =>
      case Run(b) =>
        SliceFrames(w, b);
    }
  }

  /** A page whose words but the link to the next slab are the same. */
  lemma PageSame(page: Frame, page': Frame, f: nat, cache: Word, s: nat, free: seq<nat>)
    requires PageOk(page, f, cache, s, free)
    requires forall k | 1 <= k < 1024 :: page'[k] == page[k]
    ensures PageOk(page', f, cache, s, free)
  {
    forall i | 0 <= i < |free| ensures LinkedAt(page', f, free, i) {
      assert IsObject(s, free[i]) && LinkedAt(page, f, free, i);
    }
  }

  lemma SlabSame(w: State, w': State, f: nat, c: nat)
    requires ShapeOk(w) && ShapeOk(w') && SlabOk(w, f, c)
    requires w'.dir == w.dir && w'.caches == w.caches && f in w'.v.slabs[c]
    requires f in w'.v.free && w'.v.free[f] == w.v.free[f]
    requires forall k | 1 <= k < 1024 :: w'.mem[f][k] == w.mem[f][k]
    requires Walk(w'.mem, w.dir, f) == Walk(w.mem, w.dir, f)
    ensures SlabOk(w', f, c)
  {
    PageSame(w.mem[f], w'.mem[f], f, w.caches[c], ObjectWords(c), w.v.free[f]);
  }

  lemma ListSame(w: State, w': State, c: nat)
    requires ShapeOk(w) && ShapeOk(w') && c < CACHES && ListOk(w, c)
    requires w'.v.slabs[c] == w.v.slabs[c] && w'.heads[c] == w.heads[c]
    requires forall f | f in w.v.owner && w.v.owner[f] == Slab(c) :: Owns(w', f, Slab(c))
    requires forall f | f in w.v.owner && w.v.owner[f] == Slab(c) && f < FRAME_COUNT ::
               w'.mem[f][NEXT] == w.mem[f][NEXT]
    ensures ListOk(w', c)
  {
    var list := w.v.slabs[c];
    forall i | 0 <= i < |list| ensures Owns(w', list[i], Slab(c)) && ChainedAt(w'.mem, list, i) {
      assert Owns(w, list[i], Slab(c)) && ChainedAt(w.mem, list, i);
    }
  }

  lemma SlabChangedInv(w: State, c: nat, f: nat, contents: Frame, free: seq<nat>, spared: nat)
    requires Inv(w) && f < FRAME_COUNT && spared < 1024
    requires ChangeOk(w, c, f, contents, free, spared) && NoThread(w, c, f, spared)
    ensures Inv(SlabChanged(w, f, contents, free))
    ensures Kept(w, SlabChanged(w, f, contents, free), {Object(c, f, spared)})
  {
    var w' := SlabChanged(w, f, contents, free);
    SlabChangedSlabs(w, c, f, contents, free, spared);
    FramesKept(w, w', {Object(c, f, spared)});
    StepInv(w, w', {Object(c, f, spared)});
  }

  lemma SlabChangedSlabs(w: State, c: nat, f: nat, contents: Frame, free: seq<nat>, spared: nat)
    requires OwnersOk(w) && SlabsOk(w) && f < FRAME_COUNT && ChangeOk(w, c, f, contents, free, spared)
    ensures SlabsOk(SlabChanged(w, f, contents, free))
  {
    var w' := SlabChanged(w, f, contents, free);
    SteadyOwners(w, w');
    forall k | 0 <= k < CACHES ensures ListOk(w', k) {
      ListSame(w, w', k);
    }
    forall g | g in w'.v.owner && w'.v.owner[g].Slab? ensures SlabOk(w', g, w'.v.owner[g].cache) {
      assert SlabOk(w, g, w.v.owner[g].cache);
      if g != f {
        SlabSame(w, w', g, w.v.owner[g].cache);
      }
    }
  }

  /** A filled page that belongs to nobody becomes the first slab of cache c. */
  function Adopted(w: State, c: nat, f: nat, free: seq<nat>): State
    requires c < |w.heads| && c < |w.v.slabs| && f < FRAME_COUNT
  {
    w.(heads := w.heads[c := f * 0x1000],
       v := w.v.(owner := w.v.owner[f := Slab(c)],
                 slabs := w.v.slabs[c := [f] + w.v.slabs[c]],
                 free := w.v.free[f := free]))
  }

  ghost predicate AdoptOk(w: State, c: nat, f: nat, free: seq<nat>) {
    && ShapeOk(w) && c < CACHES && 0 < f < 0xC_0000 && Owns(w, f, Orphan)
    && PageOk(w.mem[f], f, w.caches[c], ObjectWords(c), free)
    && |free| < Capacity(ObjectWords(c))
    && w.mem[f][NEXT] == w.heads[c]
    && Walk(w.mem, w.dir, f) == Some(f)
  }

  lemma ChainPush(mem: Memory, head: Word, list: seq<nat>, f: nat)
    requires Chain(mem, head, list) && f < FRAME_COUNT && f !in list && mem[f][NEXT] == head
    ensures Chain(mem, f * 0x1000, [f] + list)
  {
    var list' := [f] + list;
    forall i | 0 <= i < |list'| ensures ChainedAt(mem, list', i) {
      assert i > 0 ==> list'[i] == list[i - 1] && ChainedAt(mem, list, i - 1);
      assert i + 1 < |list'| ==> list'[i + 1] == list[i];
    }
  }

  lemma AdoptedList(w: State, c: nat, f: nat, free: seq<nat>)
    requires AdoptOk(w, c, f, free) && ListOk(w, c)
    ensures ListOk(Adopted(w, c, f, free), c)
  {
    var w' := Adopted(w, c, f, free);
    var list := w.v.slabs[c];
    assert forall i | 0 <= i < |list| :: Owns(w, list[i], Slab(c));
    ChainPush(w.mem, w.heads[c], list, f);
    forall i | 0 <= i < |[f] + list| ensures Owns(w', ([f] + list)[i], Slab(c)) {
      assert i > 0 ==> Owns(w, list[i - 1], Slab(c));
    }
  }

  lemma AdoptedSlabs(w: State, c: nat, f: nat, free: seq<nat>)
    requires SlabsOk(w) && AdoptOk(w, c, f, free)
    ensures SlabsOk(Adopted(w, c, f, free))
  {
    var w' := Adopted(w, c, f, free);
    forall k | 0 <= k < CACHES ensures ListOk(w', k) {
      if k == c {
        AdoptedList(w, c, f, free);
      } else {
        ListSame(w, w', k);
      }
    }
    forall g | g in w'.v.owner && w'.v.owner[g].Slab? ensures SlabOk(w', g, w'.v.owner[g].cache) {
      assert f in [f] + w.v.slabs[c];
      if g != f {
        assert SlabOk(w, g, w.v.owner[g].cache);
        assert g in w'.v.slabs[w.v.owner[g].cache];
        SlabSame(w, w', g, w.v.owner[g].cache);
      }
    }
  }

  lemma AdoptedInv(w: State, c: nat, f: nat, free: seq<nat>)
    requires Inv(w) && AdoptOk(w, c, f, free)
    ensures Inv(Adopted(w, c, f, free)) && Kept(w, Adopted(w, c, f, free), {})
  {
    var w' := Adopted(w, c, f, free);
    AdoptedSlabs(w, c, f, free);
    AdoptedKept(w, c, f, free);
    hide Kept, OwnersOk, SlabsOk, SlicesOk, PageOk;
    StepInv(w, w', {});
  }

  lemma AdoptedKept(w: State, c: nat, f: nat, free: seq<nat>)
    requires SlicesOk(w) && SlabsOk(w) && AdoptOk(w, c, f, free) && OwnersOk(w)
    ensures Kept(w, Adopted(w, c, f, free), {}) && Steady(w, Adopted(w, c, f, free))
    ensures SameSlices(w, Adopted(w, c, f, free))
  {
    hide SlicesOk, SlabsOk, TablesOk, TablesOwned, PageOk;
    FramesKept(w, Adopted(w, c, f, free), {});
  }

  /** Memory once the link to slab i has been redirected. */
  function Unlinked(mem: Memory, list: seq<nat>, i: nat): Memory
    requires i < |list| && forall k | 0 <= k < |list| :: list[k] < FRAME_COUNT
  {
    if i == 0 then mem else SetWord(mem, list[i - 1], NEXT, SlabLink(list, i + 1))
  }

  lemma ChainUnlink(mem: Memory, mem': Memory, head: Word, list: seq<nat>, i: nat, list': seq<nat>)
    requires Chain(mem, head, list) && i < |list| && list' == RemoveAt(list, i)
    requires forall k | 0 <= k < |list| && k != i && k != i - 1 :: mem'[list[k]][NEXT] == mem[list[k]][NEXT]
    requires i > 0 ==> mem'[list[i - 1]][NEXT] == SlabLink(list, i + 1)
    ensures Chain(mem', if i == 0 then SlabLink(list, 1) else head, list')
  {
    forall k | 0 <= k < |list'| ensures ChainedAt(mem', list', k) {
      var j := if k < i then k else k + 1;
      assert list'[k] == list[j] && ChainedAt(mem, list, j);
      assert k + 1 < |list'| ==> list'[k + 1] == list[if k + 1 < i then k + 1 else k + 2];
    }
  }

  /** The one live object of slab i of cache c goes, and the slab with it. */
  ghost predicate RetireOk(w: State, c: nat, i: nat, o: nat) {
    && ShapeOk(w) && c < CACHES && i < |w.v.slabs[c]| && ListOk(w, c)
    && o < 1024 && NoThread(w, c, w.v.slabs[c][i], o)
    && (forall o': nat | LiveObject(w, c, w.v.slabs[c][i], o') :: o' == o)
  }

  /** The slab's frame belongs to nobody, and one link word, in a header or in the cache, has
      changed. */
  ghost predicate RetireStep(w: State, w': State, c: nat, i: nat)
    requires ShapeOk(w) && c < CACHES && i < |w.v.slabs[c]| && ListOk(w, c)
  {
    var list := w.v.slabs[c];
    && w'.dir == w.dir && w'.used == w.used && w'.caches == w.caches && SameSlices(w, w')
    && w'.heads == (if i == 0 then w.heads[c := SlabLink(list, 1)] else w.heads)
    && w'.v.slabs == w.v.slabs[c := RemoveAt(list, i)]
    && w'.v.owner == w.v.owner[list[i] := Orphan]
    && w'.v.free == w.v.free - {list[i]}
    && (forall f | 0 <= f < FRAME_COUNT && f != list[i] && (i == 0 || f != list[i - 1]) :: w'.mem[f] == w.mem[f])
    && (i > 0 ==> w'.mem[list[i - 1]] == w.mem[list[i - 1]][NEXT := SlabLink(list, i + 1)])
  }

  /** Every slab page but the retired one keeps all words but its link. */
  lemma RetiredPages(w: State, w': State, c: nat, i: nat)
    requires ShapeOk(w) && c < CACHES && i < |w.v.slabs[c]| && ListOk(w, c) && RetireStep(w, w', c, i)
    ensures Owns(w, w.v.slabs[c][i], Slab(c))
    ensures forall f | f in w.v.owner && w.v.owner[f] != Slab(c) && f < FRAME_COUNT :: w'.mem[f] == w.mem[f]
    ensures forall f, k | 0 <= f < FRAME_COUNT && f != w.v.slabs[c][i] && 1 <= k < 1024 :: w'.mem[f][k] == w.mem[f][k]
  {
    assert Owns(w, w.v.slabs[c][i], Slab(c));
    if i > 0 {
      assert Owns(w, w.v.slabs[c][i - 1], Slab(c));
    }
  }

  lemma RetiredList(w: State, w': State, c: nat, i: nat)
    requires ShapeOk(w) && c < CACHES && i < |w.v.slabs[c]| && ListOk(w, c) && RetireStep(w, w', c, i)
    ensures ShapeOk(w') && ListOk(w', c)
  {
    var list, list' := w.v.slabs[c], w'.v.slabs[c];
    ChainUnlink(w.mem, w'.mem, w.heads[c], list, i, list');
    forall k | 0 <= k < |list'| ensures Owns(w', list'[k], Slab(c)) {
      assert Owns(w, list[if k < i then k else k + 1], Slab(c));
    }
  }

  lemma RetiredSlab(w: State, w': State, c: nat, i: nat, g: nat, k: nat)
    requires ShapeOk(w) && c < CACHES && i < |w.v.slabs[c]| && ListOk(w, c) && RetireStep(w, w', c, i)
    requires ShapeOk(w') && g != w.v.slabs[c][i] && SlabOk(w, g, k)
    requires Walk(w'.mem, w.dir, g) == Walk(w.mem, w.dir, g)
    ensures SlabOk(w', g, k)
  {
    RetiredPages(w, w', c, i);
    if k == c {
      StillListed(w.v.slabs[c], i, g);
    }
    SlabSame(w, w', g, k);
  }

  lemma StillListed(list: seq<nat>, i: nat, g: nat)
    requires i < |list| && g in list && g != list[i]
    ensures g in RemoveAt(list, i)
  {
    var k :| 0 <= k < |list| && list[k] == g;
    assert RemoveAt(list, i)[if k < i then k else k - 1] == g;
  }

  lemma RetiredSlabs(w: State, w': State, c: nat, i: nat)
    requires SlabsOk(w) && c < CACHES && i < |w.v.slabs[c]| && RetireStep(w, w', c, i)
    requires forall p | 0 <= p < FRAME_COUNT :: Walk(w'.mem, w.dir, p) == Walk(w.mem, w.dir, p)
    ensures SlabsOk(w')
  {
    RetiredPages(w, w', c, i);
    RetiredList(w, w', c, i);
    forall k | 0 <= k < CACHES ensures ListOk(w', k) {
      if k != c {
        ListSame(w, w', k);
      }
    }
    forall g | g in w'.v.owner && w'.v.owner[g].Slab? ensures SlabOk(w', g, w'.v.owner[g].cache) {
      RetiredSlab(w, w', c, i, g, w.v.owner[g].cache);
    }
  }

  lemma RetiredKept(w: State, w': State, c: nat, i: nat, o: nat)
    requires OwnersOk(w) && SlicesOk(w) && RetireOk(w, c, i, o) && RetireStep(w, w', c, i)
    ensures Steady(w, w') && Kept(w, w', {Object(c, w.v.slabs[c][i], o)})
  {
    RetiredPages(w, w', c, i);
    forall c': nat, f: nat, o': nat | LiveObject(w, c', f, o') && Object(c', f, o') != Object(c, w.v.slabs[c][i], o)
      ensures LiveObject(w', c', f, o') && SameBlock(w, w', Object(c', f, o'))
    {
      assert f != w.v.slabs[c][i];
    }
    FramesKept(w, w', {Object(c, w.v.slabs[c][i], o)});
  }

  lemma RetiredInv(w: State, w': State, c: nat, i: nat, o: nat)
    requires Inv(w) && RetireOk(w, c, i, o) && RetireStep(w, w', c, i)
    ensures Inv(w') && Owns(w', w.v.slabs[c][i], Orphan)
    ensures Kept(w, w', {Object(c, w.v.slabs[c][i], o)})
  {
    hide TablesOwned, BootOwned, BootExactly, Kept, SliceOk;
    RetiredPages(w, w', c, i);
    RetiredKept(w, w', c, i, o);
    SteadyOwners(w, w');
    RetiredSlabs(w, w', c, i);
    StepInv(w, w', {Object(c, w.v.slabs[c][i], o)});
  }
}
