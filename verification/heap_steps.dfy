/** What each call of the slab allocator does to a snapshot, and that it keeps the invariant. */
module HeapSteps {
  import opened Words
  import opened Hardware
  import opened Pmm
  import opened Paging
  import opened SlabPage
  import opened World
  import opened Transitions
  import opened Slices

  /** How `slab_create` ends: with a filled page, without a free frame, or at its first store. */
  datatype Creation = Filled(frame: nat) | NoFrame | Faulted

  /** The frames used once frame f is taken and its own page mapped. */
  ghost predicate TookFrame(w: State, w': State, f: nat)
    requires w.dir < FRAME_COUNT && f < WINDOW && w'.dir < FRAME_COUNT
  {
    && !AllUsed(w.used) && f == Lowest(w.used)
    && CanMap(w.mem, w.dir, w.used + {f}, f)
    && HasTable(w'.mem, w'.dir, f / 1024)
    && (if HasTable(w.mem, w.dir, f / 1024) then w'.used == w.used + {f}
        else w'.used == w.used + {f} + {Lowest(w.used + {f})})
  }

  /** The lowest free frame can be taken, but then its own page cannot be mapped. */
  ghost predicate CannotMapOwn(w: State)
    requires w.dir < FRAME_COUNT
  {
    !AllUsed(w.used) && Lowest(w.used) < WINDOW && !CanMap(w.mem, w.dir, w.used + {Lowest(w.used)}, Lowest(w.used))
  }

  /** Frame f holds a filled page of cache c that is on no list yet. */
  ghost predicate FreshPage(w: State, c: nat, f: nat) {
    && c < CACHES == |w.caches| && 0 < f < LARGE_BASE && w.dir < FRAME_COUNT && Owns(w, f, Orphan)
    && Walk(w.mem, w.dir, f) == Some(f)
    && PageOk(w.mem[f], f, w.caches[c], ObjectWords(c), Built(ObjectWords(c), Capacity(ObjectWords(c))))
    && w.mem[f][NEXT] == 0
  }

  lemma FreeFrameLow(w: State, f: nat)
    requires Inv(w) && f < FRAME_COUNT && f !in w.used
    ensures 0 < f < LARGE_BASE && f != w.dir
  {}

  lemma OrphanNotWatched(w: State, f: nat)
    requires Inv(w) && f < LARGE_BASE && Owns(w, f, Orphan)
    ensures !Watched(w, f)
  {
    forall b | b in w.v.slices ensures !(b <= f < SliceEnd(b, |w.v.slices[b].frames|)) {
      SlicePlaced(w, b);
    }
  }

  /** Frame f taken and its own page mapped: it translates to itself if and only if a table for it
      could be had. */
  lemma TookFrameMapped(w: State, mem': Memory, used': set<nat>, f: nat)
    requires Inv(w) && !AllUsed(w.used) && f == Lowest(w.used) && f < LARGE_BASE && f != w.dir
    requires MapStep(w.mem, w.used + {f}, mem', used', w.dir, f, MakeEntry(f * 0x1000, 3))
    ensures Walk(mem', w.dir, f).Some? <==> CanMap(w.mem, w.dir, w.used + {f}, f)
    ensures Walk(mem', w.dir, f).Some? ==> Walk(mem', w.dir, f) == Some(f)
    ensures Walk(mem', w.dir, f).Some? ==> TookFrame(w, AfterMap(Allocated(w, f), mem', used', f), f)
    ensures Walk(mem', w.dir, f).None? ==> AfterMap(Allocated(w, f), mem', used', f) == Allocated(w, f)
  {
    AllocatedInv(w, f);
    FrameEntry(f);
    MapTranslates(w.mem, w.used + {f}, mem', used', w.dir, f, MakeEntry(f * 0x1000, 3));
    MapDirectory(w.mem, w.used + {f}, mem', used', w.dir, f, MakeEntry(f * 0x1000, 3));
    AfterNoMap(Allocated(w, f), f);
  }

  /** Frame f taken and its own page mapped, as one step. */
  ghost predicate TookStep(w: State, w': State, f: nat) {
    && Inv(w') && Untouched(w, w') && OwnersExtended(w, w') && Owns(w', f, Orphan)
    && f < LARGE_BASE && w.dir < FRAME_COUNT && w'.dir < FRAME_COUNT
    && (if Walk(w'.mem, w'.dir, f).Some? then Walk(w'.mem, w'.dir, f) == Some(f) && TookFrame(w, w', f)
        else CannotMapOwn(w) && w' == Allocated(w, f))
  }

  lemma TookFrameStep(w: State, w': State, f: nat)
    requires Inv(w) && !AllUsed(w.used) && f == Lowest(w.used) && f < LARGE_BASE && f != w.dir
    requires MapStep(w.mem, w.used + {f}, w'.mem, w'.used, w.dir, f, MakeEntry(f * 0x1000, 3))
    requires w' == AfterMap(Allocated(w, f), w'.mem, w'.used, f)
    ensures TookStep(w, w', f)
  {
    hide SlabsOk, SlicesOk, Watched, TablesOwned, BootOwned, BootExactly, Kept, TookFrame;
    var w1 := Allocated(w, f);
    AllocatedInv(w, f);
    OrphanNotWatched(w1, f);
    MappedInv(w1, w'.mem, w'.used, f, MakeEntry(f * 0x1000, 3));
    UntouchedTrans(w, w1, w');
    TookFrameMapped(w, w'.mem, w'.used, f);
    MapDirectory(w.mem, w.used + {f}, w'.mem, w'.used, w.dir, f, MakeEntry(f * 0x1000, 3));
  }

  ghost predicate OwnersExtended(w: State, w': State) {
    forall g | g in w.v.owner :: Owns(w', g, w.v.owner[g])
  }

  /** The first slab of the list, from index i on, with a free object, or the list's length. */
  ghost function FirstOpen(list: seq<nat>, free: map<nat, seq<nat>>, i: nat): (k: nat)
    requires i <= |list|
    ensures i <= k <= |list|
    decreases |list| - i
  {
    if i == |list| || (list[i] in free && free[list[i]] != []) then i else FirstOpen(list, free, i + 1)
  }

  lemma FirstOpenIs(list: seq<nat>, free: map<nat, seq<nat>>, i: nat)
    requires i <= |list|
    ensures forall j | i <= j < FirstOpen(list, free, i) :: !(list[j] in free && free[list[j]] != [])
    ensures FirstOpen(list, free, i) < |list| ==>
              list[FirstOpen(list, free, i)] in free && free[list[FirstOpen(list, free, i)]] != []
    decreases |list| - i
  {
    if i < |list| && !(list[i] in free && free[list[i]] != []) {
      FirstOpenIs(list, free, i + 1);
    }
  }

  /** What is known of slab i of cache c. */
  lemma ListedSlab(w: State, c: nat, i: nat)
    requires OwnersOk(w) && SlabsOk(w) && c < CACHES && i < |w.v.slabs[c]|
    ensures 0 < w.v.slabs[c][i] < LARGE_BASE && SlabOk(w, w.v.slabs[c][i], c)
    ensures Owns(w, w.v.slabs[c][i], Slab(c)) && !IsTable(w.mem, w.dir, w.v.slabs[c][i])
    ensures ListOk(w, c) && w.mem[w.v.slabs[c][i]][NEXT] == SlabLink(w.v.slabs[c], i + 1)
  {
    assert ListOk(w, c);
    assert Owns(w, w.v.slabs[c][i], Slab(c)) && ChainedAt(w.mem, w.v.slabs[c], i);
    InUseIsNoTable(w, w.v.slabs[c][i]);
  }

  lemma ListHead(w: State, c: nat)
    requires SlabsOk(w) && c < CACHES
    ensures ShapeOk(w) && ListOk(w, c) && w.heads[c] == SlabLink(w.v.slabs[c], 0)
  {}

  /** The first free object of slab f is taken. */
  function TakenFrom(w: State, f: nat): State
    requires f < FRAME_COUNT && w.mem[f][FREE_COUNT] > 0 && f in w.v.free && w.v.free[f] != []
  {
    SlabChanged(w, f, Taken(w.mem[f]), w.v.free[f][1..])
  }

  /** A slab of cache c was made in frame f and its first object taken. */
  ghost predicate FreshSlab(w: State, w': State, c: nat, f: nat)
    requires c < CACHES && c < |w.v.slabs| && w.dir < FRAME_COUNT && w'.dir < FRAME_COUNT && f < LARGE_BASE
  {
    && TookFrame(w, w', f)
    && w'.v.slabs == w.v.slabs[c := [f] + w.v.slabs[c]]
    && w'.v.free == w.v.free[f := Built(ObjectWords(c), Capacity(ObjectWords(c)))[1..]]
    && SameSlices(w, w')
    && (forall g | g in w.v.owner :: Owns(w', g, w.v.owner[g]))
  }

  /** The object that a fresh slab hands out first: the last one of the page. */
  function FirstObject(c: nat): (o: nat)
    requires c < CACHES
    ensures 5 <= o < 1024
  {
    var s := ObjectWords(c);
    ObjectIndex(s, Capacity(s) - 1);
    ObjectAt(s, Capacity(s) - 1)
  }

  lemma DeadNoThread(w: State, c: nat, f: nat, o: nat)
    requires SlicesOk(w) && f < FRAME_COUNT && o < 1024 && !LiveObject(w, c, f, o)
    ensures NoThread(w, c, f, o)
  {}

  /** An exception that was no block is no exception. */
  lemma KeptDead(w: State, w': State, x: Block)
    requires Kept(w, w', {x}) && !LiveBlock(w, x)
    ensures Kept(w, w', {})
  {}

  lemma TakenChange(w: State, c: nat, f: nat)
    requires ShapeOk(w) && SlabOk(w, f, c) && Owns(w, f, Slab(c)) && w.v.free[f] != []
    ensures w.mem[f][FREE_COUNT] > 0 && w.v.free[f][0] < 1024
    ensures ChangeOk(w, c, f, Taken(w.mem[f]), w.v.free[f][1..], w.v.free[f][0])
  {
    TakenOk(w.mem[f], f, w.caches[c], ObjectWords(c), w.v.free[f]);
  }

  lemma TakenInv(w: State, c: nat, f: nat)
    requires Inv(w) && c < CACHES && Owns(w, f, Slab(c)) && SlabOk(w, f, c) && w.v.free[f] != []
    ensures w.mem[f][FREE_COUNT] > 0 && w.v.free[f][0] < 1024
    ensures Inv(TakenFrom(w, f)) && Kept(w, TakenFrom(w, f), {})
    ensures LiveObject(TakenFrom(w, f), c, f, w.v.free[f][0]) && !LiveObject(w, c, f, w.v.free[f][0])
  {
    var o := w.v.free[f][0];
    TakenChange(w, c, f);
    assert !LiveObject(w, c, f, o);
    DeadNoThread(w, c, f, o);
    SlabChangedInv(w, c, f, Taken(w.mem[f]), w.v.free[f][1..], o);
    KeptDead(w, TakenFrom(w, f), Object(c, f, o));
  }

  /** The whole effect of `slab_alloc`, case by case. */
  ghost predicate AllocStep(w: State, w': State, c: nat, out: Outcome)
    requires Inv(w) && c < CACHES && w'.dir < FRAME_COUNT
  {
    var list: seq<nat> := w.v.slabs[c];
    var k := FirstOpen(list, w.v.free, 0);
    if k < |list| then
      && list[k] < FRAME_COUNT && w.mem[list[k]][FREE_COUNT] > 0
      && list[k] in w.v.free && w.v.free[list[k]] != [] && w.v.free[list[k]][0] < 1024
      && out == Returned(Address(list[k], w.v.free[list[k]][0])) && w' == TakenFrom(w, list[k])
    else if AllUsed(w.used) then out == Returned(0) && w' == w
    else if out == PageFault then CannotMapOwn(w) && w' == Allocated(w, Lowest(w.used))
    else
      var f := Lowest(w.used);
      f < LARGE_BASE && FreshSlab(w, w', c, f) && out == Returned(Address(f, FirstObject(c)))
  }

  /** The page of a fresh slab once it leads the list and its first object is taken. */
  function LinkedTaken(page: Frame, head: Word): Frame
    requires page[FREE_COUNT] > 0
  {
    Taken(page[NEXT := head])
  }

  lemma LinkedTakenOk(w: State, c: nat, f: nat, head: Word)
    requires FreshPage(w, c, f)
    ensures w.mem[f][FREE_COUNT] > 0 && w.mem[f][FREE_LIST] == Address(f, FirstObject(c))
    ensures PageOk(LinkedTaken(w.mem[f], head), f, w.caches[c], ObjectWords(c),
                   Built(ObjectWords(c), Capacity(ObjectWords(c)))[1..])
    ensures LinkedTaken(w.mem[f], head)[NEXT] == head
    ensures IsObject(ObjectWords(c), FirstObject(c))
    ensures FirstObject(c) !in Built(ObjectWords(c), Capacity(ObjectWords(c)))[1..]
  {
    var s := ObjectWords(c);
    var free := Built(s, Capacity(s));
    ObjectIndex(s, Capacity(s) - 1);
    BuiltOk(s, Capacity(s));
    assert free[0] == FirstObject(c);
    PageSame(w.mem[f], w.mem[f][NEXT := head], f, w.caches[c], s, free);
    TakenOk(w.mem[f][NEXT := head], f, w.caches[c], s, free);
  }

  function FreshState(w: State, c: nat, f: nat): State
    requires c < CACHES && c < |w.heads| && c < |w.v.slabs| && f < FRAME_COUNT && w.mem[f][FREE_COUNT] > 0
  {
    Adopted(WithFrame(w, f, LinkedTaken(w.mem[f], w.heads[c])), c, f,
            Built(ObjectWords(c), Capacity(ObjectWords(c)))[1..])
  }

  lemma FreshInv(w: State, c: nat, f: nat)
    requires Inv(w) && FreshPage(w, c, f)
    ensures w.mem[f][FREE_COUNT] > 0 && Inv(FreshState(w, c, f)) && Kept(w, FreshState(w, c, f), {})
    ensures LiveObject(FreshState(w, c, f), c, f, FirstObject(c))
  {
    var head := w.heads[c];
    LinkedTakenOk(w, c, f, head);
    var w1 := WithFrame(w, f, LinkedTaken(w.mem[f], head));
    SpareWritten(w, f, LinkedTaken(w.mem[f], head));
    AdoptedInv(w1, c, f, Built(ObjectWords(c), Capacity(ObjectWords(c)))[1..]);
    KeptTrans(w, w1, FreshState(w, c, f), {}, {});
  }

  lemma TookFrameSame(w: State, w1: State, w2: State, f: nat)
    requires w.dir < FRAME_COUNT && w1.dir < FRAME_COUNT && f < WINDOW && TookFrame(w, w1, f)
    requires w2.dir == w1.dir && w2.used == w1.used && w2.mem[w1.dir] == w1.mem[w1.dir]
    ensures TookFrame(w, w2, f)
  {}

  lemma FreshIsFresh(w0: State, w: State, c: nat, f: nat)
    requires w0.dir < FRAME_COUNT && OwnersOk(w) && Untouched(w0, w) && OwnersExtended(w0, w)
    requires FreshPage(w, c, f) && TookFrame(w0, w, f) && ShapeOk(w) && f !in w0.v.owner
    requires w.mem[f][FREE_COUNT] > 0
    ensures FreshSlab(w0, FreshState(w, c, f), c, f)
  {
    hide TookFrame, PageOk, TablesOwned, BootExactly, TablesOk, Watched;
    TookFrameSame(w0, w, FreshState(w, c, f), f);
  }

  /** An allocation that needs a fresh page and gets none. */
  lemma NoFreshPage(w: State, w': State, c: nat, out: Outcome)
    requires Inv(w) && c < CACHES && FirstOpen(w.v.slabs[c], w.v.free, 0) == |w.v.slabs[c]|
    requires if AllUsed(w.used) then w' == w && out == Returned(0)
             else CannotMapOwn(w) && w' == Allocated(w, Lowest(w.used)) && out == PageFault
    ensures AllocStep(w, w', c, out) && Kept(w, w', {})
  {
    hide Kept, SlabsOk, SlicesOk;
    if AllUsed(w.used) {
      KeptRefl(w);
    } else {
      AllocatedInv(w, Lowest(w.used));
    }
  }

  /** An allocation from a fresh page. */
  lemma FreshDone(w: State, w1: State, c: nat, f: nat)
    requires Inv(w) && Inv(w1) && c < CACHES && FirstOpen(w.v.slabs[c], w.v.free, 0) == |w.v.slabs[c]|
    requires w.dir < FRAME_COUNT && w1.dir < FRAME_COUNT && f < LARGE_BASE
    requires FreshPage(w1, c, f) && Untouched(w, w1) && OwnersExtended(w, w1) && TookFrame(w, w1, f)
    ensures w1.mem[f][FREE_COUNT] > 0
    ensures AllocStep(w, FreshState(w1, c, f), c, Returned(Address(f, FirstObject(c))))
    ensures Kept(w, FreshState(w1, c, f), {})
  {
    hide Kept, Untouched, OwnersOk, SlicesOk, ListOk, SlabOk, FreshPage, TookFrame, FreshSlab, AllocStep, FreshState;
    TookLowest(w, w1, f);
    FreeFrameLow(w, f);
    FreshInv(w1, c, f);
    OwnersAreUsed(w);
    FreshIsFresh(w, w1, c, f);
    FreshStep(w, FreshState(w1, c, f), c, f);
    UntouchedKept(w, w1);
    KeptChain(w, w1, FreshState(w1, c, f));
  }

  lemma TookLowest(w: State, w1: State, f: nat)
    requires w.dir < FRAME_COUNT && w1.dir < FRAME_COUNT && f < WINDOW && TookFrame(w, w1, f)
    ensures !AllUsed(w.used) && f == Lowest(w.used) && f !in w.used && f < FRAME_COUNT
  {}

  lemma FreshStep(w: State, w': State, c: nat, f: nat)
    requires Inv(w) && c < CACHES && FirstOpen(w.v.slabs[c], w.v.free, 0) == |w.v.slabs[c]|
    requires w'.dir < FRAME_COUNT && f < LARGE_BASE && FreshSlab(w, w', c, f)
    ensures AllocStep(w, w', c, Returned(Address(f, FirstObject(c))))
  {
    hide OwnersOk, SlicesOk, ListOk, SlabOk, FirstOpen;
  }

  /** An allocation hands out a block that was not live, and leaves the others as they were. */
  lemma AllocGives(w: State, w': State, c: nat, out: Outcome)
    requires Inv(w) && c < CACHES && w'.dir < FRAME_COUNT && AllocStep(w, w', c, out) && out.Returned? && out.ptr != 0
    requires Inv(w')
    ensures LiveObject(w', c, out.ptr / 0x1000, out.ptr % 0x1000 / 4) && out.ptr % 4 == 0
    ensures !LiveObject(w, c, out.ptr / 0x1000, out.ptr % 0x1000 / 4)
  {
    var list: seq<nat> := w.v.slabs[c];
    var k := FirstOpen(list, w.v.free, 0);
    if k < |list| {
      ListedSlab(w, c, k);
      TakenInv(w, c, list[k]);
    } else {
      FreshGives(w, w', c, Lowest(w.used));
    }
  }

  lemma FreshGives(w: State, w': State, c: nat, f: nat)
    requires SlabsOk(w) && SlabsOk(w') && OwnersOk(w) && c < CACHES && w.dir < FRAME_COUNT && w'.dir < FRAME_COUNT
               && f < LARGE_BASE
    requires FreshSlab(w, w', c, f)
    ensures LiveObject(w', c, f, FirstObject(c)) && !LiveObject(w, c, f, FirstObject(c))
  {
    var s := ObjectWords(c);
    assert ListOk(w', c);
    assert Owns(w', w'.v.slabs[c][0], Slab(c));
    ObjectIndex(s, Capacity(s) - 1);
    BuiltOk(s, Capacity(s));
    assert Built(s, Capacity(s))[0] == FirstObject(c);
  }

  /** An object with a full list beside it is the page's only live one. */
  lemma OneLive(page: Frame, f: nat, cache: Word, s: nat, free: seq<nat>, o: nat, o': nat)
    requires PageOk(page, f, cache, s, free) && |free| + 1 == Capacity(s)
    requires IsObject(s, o) && o !in free && IsObject(s, o') && o' !in free
    ensures o' == o
  {
    LivePlusFree(page, f, cache, s, free);
    var live := LiveObjects(s, free);
    assert o in live && o' in live && |live| == 1;
    if o' != o {
      SubsetCount({o, o'}, live);
    }
  }

  /** The slab of frame f left cache c and its frame is free. */
  ghost predicate SlabReturned(w: State, w': State, c: nat, f: nat)
    requires c < CACHES && c < |w.v.slabs| && w.dir < FRAME_COUNT
  {
    && (exists i :: 0 <= i < |w.v.slabs[c]| && w.v.slabs[c][i] == f &&
          w'.v.slabs == w.v.slabs[c := RemoveAt(w.v.slabs[c], i)])
    && w'.v.free == w.v.free - {f}
    && w'.v.owner == w.v.owner - {f} && w'.used == w.used - {f}
    && SameSlices(w, w') && w'.dir == w.dir && w'.mem[w.dir] == w.mem[w.dir]
  }

  /** The whole effect of `slab_free`: the object leads its page's free list, or, if it was the
      page's last live object, the page goes back. */
  ghost predicate FreeStep(w: State, w': State, c: nat, f: nat, o: nat)
    requires Inv(w) && LiveObject(w, c, f, o) && f < FRAME_COUNT && o < 1024
  {
    if |w.v.free[f]| + 1 < Capacity(ObjectWords(c)) then
      w.mem[f][FREE_COUNT] < 0xFFFF_FFFF && w' == SlabChanged(w, f, Put(w.mem[f], f, o), [o] + w.v.free[f])
    else SlabReturned(w, w', c, f)
  }

  /** What is known of a live object's page. */
  lemma LivePage(w: State, c: nat, f: nat, o: nat)
    requires OwnersOk(w) && SlabsOk(w) && LiveObject(w, c, f, o)
    ensures 0 < f < LARGE_BASE && SlabOk(w, f, c) && 5 <= o < 1024
    ensures !IsTable(w.mem, w.dir, f) && w.mem[f][FREE_COUNT] < 0xFFFF_FFFF
    ensures PageOk(Put(w.mem[f], f, o), f, w.caches[c], ObjectWords(c), [o] + w.v.free[f])
    ensures f in w.v.slabs[c]
  {
    assert SlabOk(w, f, c);
    InUseIsNoTable(w, f);
    PutOk(w.mem[f], f, w.caches[c], ObjectWords(c), w.v.free[f], o);
  }

  lemma PutChange(w: State, c: nat, f: nat, o: nat)
    requires ShapeOk(w) && LiveObject(w, c, f, o) && SlabOk(w, f, c) && o < 1024
    requires w.mem[f][FREE_COUNT] < 0xFFFF_FFFF && |w.v.free[f]| + 1 < Capacity(ObjectWords(c))
    ensures ChangeOk(w, c, f, Put(w.mem[f], f, o), [o] + w.v.free[f], o)
  {
    var s := ObjectWords(c);
    PutOk(w.mem[f], f, w.caches[c], s, w.v.free[f], o);
    forall o': nat, k: nat | IsObject(s, o') && o' !in w.v.free[f] && o' != o && o' <= k < o' + s
      ensures Put(w.mem[f], f, o)[k] == w.mem[f][k]
    {
      if o' < o {
        ObjectsDisjoint(s, o', o);
      } else {
        ObjectsDisjoint(s, o, o');
      }
    }
  }

  lemma PutInv(w: State, c: nat, f: nat, o: nat)
    requires Inv(w) && LiveObject(w, c, f, o) && f < FRAME_COUNT && o < 1024 && NoThread(w, c, f, o)
    requires |w.v.free[f]| + 1 < Capacity(ObjectWords(c)) && w.mem[f][FREE_COUNT] < 0xFFFF_FFFF
    ensures Inv(SlabChanged(w, f, Put(w.mem[f], f, o), [o] + w.v.free[f]))
    ensures Kept(w, SlabChanged(w, f, Put(w.mem[f], f, o), [o] + w.v.free[f]), {Object(c, f, o)})
  {
    LivePage(w, c, f, o);
    PutChange(w, c, f, o);
    SlabChangedInv(w, c, f, Put(w.mem[f], f, o), [o] + w.v.free[f], o);
  }

  lemma LastLive(w: State, c: nat, f: nat, o: nat, i: nat)
    requires OwnersOk(w) && SlabsOk(w) && LiveObject(w, c, f, o) && f < FRAME_COUNT && o < 1024 && NoThread(w, c, f, o)
    requires |w.v.free[f]| + 1 >= Capacity(ObjectWords(c)) && i < |w.v.slabs[c]| && w.v.slabs[c][i] == f
    ensures RetireOk(w, c, i, o)
  {
    LivePage(w, c, f, o);
    LiveLeavesRoom(w.mem[f], f, w.caches[c], ObjectWords(c), w.v.free[f], o);
    assert ListOk(w, c);
    forall o': nat | LiveObject(w, c, f, o') ensures o' == o {
      OneLive(w.mem[f], f, w.caches[c], ObjectWords(c), w.v.free[f], o, o');
    }
  }

  /** The header's counters tell whether the object is the page's last live one. */
  lemma FullPage(w: State, c: nat, f: nat, o: nat)
    requires OwnersOk(w) && SlabsOk(w) && LiveObject(w, c, f, o) && f < FRAME_COUNT
    ensures f in w.v.free && Walk(w.mem, w.dir, f) == Some(f)
    ensures w.mem[f][FREE_COUNT] + 1 >= w.mem[f][CAPACITY] <==> |w.v.free[f]| + 1 >= Capacity(ObjectWords(c))
  {
    assert SlabOk(w, f, c);
  }

  lemma PutFrees(w: State, c: nat, f: nat, o: nat)
    requires Inv(w) && LiveObject(w, c, f, o) && f < FRAME_COUNT && o < 1024 && NoThread(w, c, f, o)
    requires f in w.v.free && |w.v.free[f]| + 1 < Capacity(ObjectWords(c)) && w.mem[f][FREE_COUNT] < 0xFFFF_FFFF
    ensures Inv(SlabChanged(w, f, Put(w.mem[f], f, o), [o] + w.v.free[f]))
    ensures Kept(w, SlabChanged(w, f, Put(w.mem[f], f, o), [o] + w.v.free[f]), {Object(c, f, o)})
    ensures FreeStep(w, SlabChanged(w, f, Put(w.mem[f], f, o), [o] + w.v.free[f]), c, f, o)
  {
    hide Kept, OwnersOk, SlabsOk, SlicesOk;
    PutInv(w, c, f, o);
  }

  lemma ReturnFrees(w: State, w': State, c: nat, f: nat, o: nat)
    requires Inv(w) && LiveObject(w, c, f, o) && f < FRAME_COUNT && o < 1024 && f in w.v.free && c < |w.v.slabs|
    requires |w.v.free[f]| + 1 >= Capacity(ObjectWords(c)) && w.dir < FRAME_COUNT && SlabReturned(w, w', c, f)
    ensures FreeStep(w, w', c, f, o)
  {}

  /** Where the page of the last live object is on its list. */
  lemma ListIndex(w: State, c: nat, f: nat, o: nat) returns (i: nat)
    requires Inv(w) && LiveObject(w, c, f, o) && f < FRAME_COUNT && o < 1024 && NoThread(w, c, f, o)
    requires f in w.v.free && |w.v.free[f]| + 1 >= Capacity(ObjectWords(c))
    ensures RetireReady(w, c, f, o, i)
  {
    LivePage(w, c, f, o);
    i :| 0 <= i < |w.v.slabs[c]| && w.v.slabs[c][i] == f;
    LastLive(w, c, f, o, i);
  }

  /** Putting an object back touches no link between slabs. */
  lemma PutList(w: State, w': State, c: nat, f: nat, o: nat)
    requires Inv(w) && c < CACHES && f < FRAME_COUNT && 5 <= o < 1024 && w.mem[f][FREE_COUNT] < 0xFFFF_FFFF
    requires w' == WithFrame(w, f, Put(w.mem[f], f, o)) && Owns(w, f, Slab(c))
    ensures Chain(w'.mem, w'.heads[c], w.v.slabs[c])
    ensures forall k | 0 <= k < |w.v.slabs[c]| ::
              0 < w.v.slabs[c][k] < FRAME_COUNT && Walk(w'.mem, w.dir, w.v.slabs[c][k]) == Some(w.v.slabs[c][k]) &&
              !IsTable(w'.mem, w.dir, w.v.slabs[c][k])
  {
    var list: seq<nat> := w.v.slabs[c];
    assert ListOk(w, c);
    InUseIsNoTable(w, f);
    SameTables(w.mem, w'.mem, w.dir, w.used);
    forall k | 0 <= k < |list|
      ensures ChainedAt(w'.mem, list, k)
      ensures 0 < list[k] < FRAME_COUNT && Walk(w'.mem, w.dir, list[k]) == Some(list[k])
                && !IsTable(w'.mem, w.dir, list[k])
    {
      ListedSlab(w, c, k);
      SameDirectory(w.mem, w'.mem, w.dir, list[k]);
      assert ChainedAt(w.mem, list, k);
    }
  }

  ghost predicate RetireReady(w: State, c: nat, f: nat, o: nat, i: nat) {
    && Inv(w) && c < CACHES && i < |w.v.slabs[c]| && w.v.slabs[c][i] == f && f < FRAME_COUNT
    && LiveObject(w, c, f, o) && RetireOk(w, c, i, o) && 5 <= o < 1024 && w.mem[f][FREE_COUNT] < 0xFFFF_FFFF
  }

  /** The object put back and the slab unlinked. */
  function AfterUnlink(w: State, c: nat, f: nat, o: nat, i: nat): State
    requires c < |w.heads| && c < |w.v.slabs| && i < |w.v.slabs[c]| && f < FRAME_COUNT && o < 1024
    requires w.mem[f][FREE_COUNT] < 0xFFFF_FFFF && forall k | 0 <= k < |w.v.slabs[c]| :: w.v.slabs[c][k] < FRAME_COUNT
  {
    w.(mem := Unlinked(w.mem[f := Put(w.mem[f], f, o)], w.v.slabs[c], i),
       heads := if i == 0 then w.heads[c := SlabLink(w.v.slabs[c], 1)] else w.heads,
       v := w.v.(owner := w.v.owner[f := Orphan],
                 slabs := w.v.slabs[c := RemoveAt(w.v.slabs[c], i)],
                 free := w.v.free - {f}))
  }

  lemma AfterUnlinkInv(w: State, w': State, c: nat, f: nat, o: nat, i: nat)
    requires RetireReady(w, c, f, o, i) && w' == AfterUnlink(w, c, f, o, i)
    ensures RetireStep(w, w', c, i) && Inv(w') && Owns(w', f, Orphan)
    ensures Kept(w, w', {Object(c, f, o)}) && w'.mem[w.dir] == w.mem[w.dir]
  {
    hide Kept, SlabOk, SlicesOk, TablesOwned, BootExactly;
    assert Distinct(w.v.slabs[c]);
    RetiredPages(w, w', c, i);
    RetiredInv(w, w', c, i, o);
  }

  lemma ReturnedKept(w: State, w1: State, w2: State, c: nat, f: nat, o: nat, i: nat)
    requires RetireReady(w, c, f, o, i) && w1 == AfterUnlink(w, c, f, o, i) && w2 == Released(w1, f)
    requires Kept(w1, w2, {})
    ensures SlabReturned(w, w2, c, f) && Kept(w, w2, {Object(c, f, o)})
  {
    hide Kept, SlabsOk, SlicesOk, TablesOwned, BootExactly;
    AfterUnlinkInv(w, w1, c, f, o, i);
    assert w2.v.owner == w.v.owner - {f};
    KeptThen(w, w1, w2, {Object(c, f, o)});
  }

  ghost function BootOwners(used: set<nat>, bootTable: nat): map<nat, Owner> {
    map f | f in used :: if f == bootTable then Table(0) else Boot
  }

  lemma BootInv(w: State, bootTable: nat)
    requires w.dir < FRAME_COUNT && TablesOk(w.mem, w.dir, w.used) && BootMapped(w.mem, w.dir, bootTable)
    requires 0 in w.used && bootTable != 0
    requires forall f | f in w.used :: f < FRAME_COUNT
    requires forall f | 0xC_0000 <= f < FRAME_COUNT :: f in w.used
    requires bootTable < 1024 && |w.caches| == CACHES && Distinct(w.caches)
    requires w.heads == seq(CACHES, _ => 0) && w.nextLarge == LARGE_BASE && w.nextStack == STACK_BASE
    requires w.v == View(BootOwners(w.used, bootTable), w.used - {bootTable}, seq(CACHES, _ => []), map[], map[])
    ensures Inv(w)
  {}

  /** The frame that a slab allocation takes: none if a slab on the list has a free object. */
  ghost function SlabTaken(w: State, c: nat): set<nat>
    requires c < CACHES && c < |w.v.slabs|
  {
    if FirstOpen(w.v.slabs[c], w.v.free, 0) < |w.v.slabs[c]| || AllUsed(w.used) then {} else {Lowest(w.used)}
  }

  /** A slab allocation leaves a frame to nobody only when it faults. */
  lemma AllocAccounts(w: State, w': State, c: nat, out: Outcome)
    requires Inv(w) && Inv(w') && c < CACHES && AllocStep(w, w', c, out)
    ensures Accounts(w, w', SlabTaken(w, c), {}, if out == PageFault then SlabTaken(w, c) else {})
    ensures out == PageFault ==> Kept(w, w', {})
  {
    hide Kept, FreshSlab, OwnersOk, SlicesOk, ListOk, SlabOk, FirstOpen;
    if FirstOpen(w.v.slabs[c], w.v.free, 0) < |w.v.slabs[c]| || AllUsed(w.used) {
      TakenAccounts(w, w', c, out);
    } else if out == PageFault {
      AllocatedInv(w, Lowest(w.used));
      OwnersAreUsed(w);
      AllocatedAccounts(w, Lowest(w.used));
    } else {
      FreshAccounts(w, w', c, Lowest(w.used));
    }
  }

  lemma RefusedTook(w: State, w': State, c: nat, out: Outcome)
    requires Inv(w) && c < CACHES && w'.dir < FRAME_COUNT && AllocStep(w, w', c, out) && out == Returned(0)
    ensures |w.v.slabs| == CACHES && SlabTaken(w, c) == {}
  {}

  lemma OwnersAreUsed(w: State)
    requires OwnersOk(w)
    ensures w.v.owner.Keys == w.used
  {}

  lemma TakenAccounts(w: State, w': State, c: nat, out: Outcome)
    requires Inv(w) && c < CACHES && w'.dir < FRAME_COUNT && AllocStep(w, w', c, out) && SlabTaken(w, c) == {}
    ensures Accounts(w, w', {}, {}, {})
  {
    AccountsSame(w, w');
  }

  lemma FreshAccounts(w: State, w': State, c: nat, f: nat)
    requires OwnersOk(w) && OwnersOk(w') && SlabsOk(w') && c < CACHES && c < |w.v.slabs| && f < LARGE_BASE
    requires FreshSlab(w, w', c, f)
    ensures Accounts(w, w', {f}, {}, {})
  {
    assert w'.v.owner[f] == Slab(c) by {
      assert ListOk(w', c);
      assert Owns(w', w'.v.slabs[c][0], Slab(c));
    }
    hide SlabsOk, TablesOk, BootOwned, BootExactly, SameSlices;
    if HasTable(w.mem, w.dir, f / 1024) {
      ExtendedAccounts(w, w', f, {});
    } else {
      NewTable(w, w', f);
      ExtendedAccounts(w, w', f, {Lowest(w.used + {f})});
    }
  }

  /** The frame taken besides the slab's own is the new table. */
  lemma NewTable(w: State, w': State, f: nat)
    requires OwnersOk(w) && OwnersOk(w') && f < LARGE_BASE && TookFrame(w, w', f) && !HasTable(w.mem, w.dir, f / 1024)
    requires OwnersExtended(w, w') && f in w'.v.owner && !w'.v.owner[f].Table?
    ensures Lowest(w.used + {f}) in w'.v.owner && w'.v.owner[Lowest(w.used + {f})].Table?
    ensures Lowest(w.used + {f}) !in w.used + {f}
  {
    hide TablesOk, BootOwned, BootExactly;
    var t := TableOf(w'.mem, w'.dir, f / 1024);
    assert w'.v.owner[t] == Table(f / 1024);
    assert t !in w.v.owner;
  }

  lemma ExtendedAccounts(w: State, w': State, f: nat, tables: set<nat>)
    requires w.v.owner.Keys == w.used && w'.v.owner.Keys == w'.used && OwnersExtended(w, w')
    requires f !in w.used && tables !! w.used + {f} && w'.used == w.used + {f} + tables
    requires w'.v.owner[f].Slab? && forall t | t in tables :: w'.v.owner[t].Table?
    ensures Accounts(w, w', {f}, {}, {})
  {
    assert Tables(w') == Tables(w) + tables && Orphans(w') == Orphans(w);
  }

  /** A slab allocation succeeds exactly if a slab on the list has a free object, or a frame is free
      whose own page can be mapped. */
  ghost predicate PageServes(w: State, c: nat)
    requires c < CACHES && c < |w.v.slabs| && w.dir < FRAME_COUNT
  {
    FirstOpen(w.v.slabs[c], w.v.free, 0) < |w.v.slabs[c]| || (!AllUsed(w.used) && !CannotMapOwn(w))
  }

  /** It takes a frame in vain exactly if no slab on the list has a free object and the page of the
      lowest free frame cannot be mapped. */
  ghost predicate PageStrands(w: State, c: nat)
    requires c < CACHES && c < |w.v.slabs| && w.dir < FRAME_COUNT
  {
    FirstOpen(w.v.slabs[c], w.v.free, 0) == |w.v.slabs[c]| && CannotMapOwn(w)
  }

  lemma AllocServes(w: State, w': State, c: nat, out: Outcome)
    requires Inv(w) && c < CACHES && w'.dir < FRAME_COUNT && AllocStep(w, w', c, out) && !out.Torn?
    ensures w.dir < FRAME_COUNT && |w.v.slabs| == CACHES
    ensures Succeeded(out) <==> PageServes(w, c)
    ensures out == PageFault <==> PageStrands(w, c)
    ensures out == PageFault ==> SlabTaken(w, c) != {}
  {
    hide OwnersOk, SlicesOk, TookStep;
    var list: seq<nat> := w.v.slabs[c];
    var k := FirstOpen(list, w.v.free, 0);
    if k < |list| {
      ListedSlab(w, c, k);
    }
  }

  /** The block that an allocation hands out, and no other, is live besides those that were. */
  ghost function Handed(c: nat, out: Outcome): set<Block> {
    if Succeeded(out) then {Object(c, out.ptr / 0x1000, out.ptr % 0x1000 / 4)} else {}
  }

  lemma AllocLive(w: State, w': State, c: nat, out: Outcome)
    requires Inv(w) && Inv(w') && c < CACHES && AllocStep(w, w', c, out) && !out.Torn?
    ensures LiveBlocks(w'.v) == LiveBlocks(w.v) + Handed(c, out)
  {
    hide OwnersOk, SlicesOk, ListOk, SlabOk, LiveBlocks, TookFrame;
    DirectoryIs(w);
    DirectoryIs(w');
    AllocServes(w, w', c, out);
    var list: seq<nat> := w.v.slabs[c];
    var k := FirstOpen(list, w.v.free, 0);
    if k < |list| {
      ListedSlab(w, c, k);
      TakenLive(w, c, list[k]);
    } else if AllUsed(w.used) {
    } else if out == PageFault {
      AllocatedInv(w, Lowest(w.used));
      UntouchedLive(w, w');
    } else {
      FreshLive(w, w', c, Lowest(w.used));
    }
  }

  /** The frame taken for an object is its own, unless that one was used before. */
  lemma SlabTakenIs(w: State, w': State, c: nat, out: Outcome)
    requires Inv(w) && c < CACHES && w'.dir < FRAME_COUNT && AllocStep(w, w', c, out) && Succeeded(out)
    ensures |w.v.slabs| == CACHES && SlabTaken(w, c) == {out.ptr / 0x1000} - w.used
  {
    hide SlicesOk, TookFrame, TablesOk, TablesOwned, BootOwned, BootExactly;
    var list: seq<nat> := w.v.slabs[c];
    var k := FirstOpen(list, w.v.free, 0);
    if k < |list| {
      ListedSlab(w, c, k);
      assert Owns(w, list[k], Slab(c));
    }
  }

  lemma DirectoryIs(w: State)
    requires OwnersOk(w)
    ensures w.dir < FRAME_COUNT
  {}

  lemma TakenLive(w: State, c: nat, f: nat)
    requires ShapeOk(w) && SlabOk(w, f, c) && Owns(w, f, Slab(c)) && w.v.free[f] != []
    requires w.mem[f][FREE_COUNT] > 0 && w.v.free[f][0] < 1024
    ensures LiveBlocks(TakenFrom(w, f).v) ==
            LiveBlocks(w.v) + {Object(c, Address(f, w.v.free[f][0]) / 0x1000, Address(f, w.v.free[f][0]) % 0x1000 / 4)}
  {
    var w' := TakenFrom(w, f);
    var free := w.v.free[f];
    assert Distinct(free) && IsObject(ObjectWords(c), free[0]);
    TailHolds(free);
    assert Address(f, free[0]) / 0x1000 == f && Address(f, free[0]) % 0x1000 / 4 == free[0];
    LiveBlocksAre(w);
    LiveBlocksAre(w');
    hide LiveBlocks, SlabOk, ShapeOk, PageOk;
    forall x ensures LiveBlock(w', x) <==> LiveBlock(w, x) || x == Object(c, f, free[0]) {}
  }

  lemma TailHolds(s: seq<nat>)
    requires Distinct(s) && s != []
    ensures forall x :: x in s[1..] <==> x in s && x != s[0]
  {
    forall x ensures x in s[1..] <==> x in s && x != s[0] {
      if x in s && x != s[0] {
        var i :| 0 <= i < |s| && s[i] == x;
        assert s[1..][i - 1] == x;
      }
    }
  }

  /** On a fresh slab's page only the first object is live. */
  lemma FreshObjects(w: State, c: nat, f: nat, o: nat)
    requires c < CACHES && f in w.v.free && Owns(w, f, Slab(c))
    requires w.v.free[f] == Built(ObjectWords(c), Capacity(ObjectWords(c)))[1..]
    ensures LiveObject(w, c, f, o) <==> o == FirstObject(c)
  {
    var s := ObjectWords(c);
    var built := Built(s, Capacity(s));
    BuiltOk(s, Capacity(s));
    ObjectIndex(s, Capacity(s) - 1);
    assert built[0] == FirstObject(c);
    TailHolds(built);
    if IsObject(s, o) {
      BuiltHolds(s, o);
    }
  }

  lemma FreshLive(w: State, w': State, c: nat, f: nat)
    requires OwnersOk(w) && SlabsOk(w) && SlabsOk(w') && c < CACHES && w.dir < FRAME_COUNT && w'.dir < FRAME_COUNT
    requires f < LARGE_BASE && FreshSlab(w, w', c, f)
    ensures LiveBlocks(w'.v) ==
            LiveBlocks(w.v) + {Object(c, Address(f, FirstObject(c)) / 0x1000, Address(f, FirstObject(c)) % 0x1000 / 4)}
  {
    var o := FirstObject(c);
    assert Address(f, o) / 0x1000 == f && Address(f, o) % 0x1000 / 4 == o;
    FreshOwners(w, w', c, f);
    LiveBlocksAre(w);
    LiveBlocksAre(w');
    hide OwnersOk, SlabsOk, TookFrame, FirstObject, LiveBlocks, LiveBlock;
    forall x ensures LiveBlock(w', x) <==> LiveBlock(w, x) || x == Object(c, f, o) {
      FreshLiveAt(w, w', c, f, x);
    }
  }

  lemma FreshLiveAt(w: State, w': State, c: nat, f: nat, x: Block)
    requires c < CACHES && f !in w.v.owner && Owns(w', f, Slab(c)) && w'.v.slices.Keys == w.v.slices.Keys
    requires w'.v.free == w.v.free[f := Built(ObjectWords(c), Capacity(ObjectWords(c)))[1..]]
    requires forall g | g in w.v.owner :: Owns(w', g, w.v.owner[g])
    requires forall g | g in w'.v.owner && w'.v.owner[g].Slab? && g != f :: Owns(w, g, w'.v.owner[g])
    ensures LiveBlock(w', x) <==> LiveBlock(w, x) || x == Object(c, f, FirstObject(c))
  {
    hide FirstObject, Built, Capacity, ObjectWords;
    if x.Object? && x.frame == f {
      FreshObjects(w', c, f, x.word);
    }
  }

  /** The new slab's frame is the only new slab frame. */
  lemma FreshOwners(w: State, w': State, c: nat, f: nat)
    requires OwnersOk(w) && SlabsOk(w) && SlabsOk(w') && c < CACHES && w.dir < FRAME_COUNT && w'.dir < FRAME_COUNT
    requires f < LARGE_BASE && FreshSlab(w, w', c, f)
    ensures f !in w.v.owner && Owns(w', f, Slab(c)) && f in w'.v.free
    ensures forall g | g in w'.v.owner && w'.v.owner[g].Slab? && g != f :: Owns(w, g, w'.v.owner[g])
  {
    hide TablesOk, TablesOwned, BootOwned, BootExactly;
    assert ListOk(w', c);
    assert Owns(w', w'.v.slabs[c][0], Slab(c));
    forall g | g in w'.v.owner && w'.v.owner[g].Slab? && g != f ensures Owns(w, g, w'.v.owner[g]) {
      var k := w'.v.owner[g].cache;
      assert SlabOk(w', g, k);
      assert g in w.v.slabs[k];
      ListHolds(w, k, g);
    }
  }

  lemma ListHolds(w: State, c: nat, f: nat)
    requires SlabsOk(w) && c < CACHES && f in w.v.slabs[c]
    ensures Owns(w, f, Slab(c))
  {
    assert ListOk(w, c);
    var i :| 0 <= i < |w.v.slabs[c]| && w.v.slabs[c][i] == f;
    assert Owns(w, w.v.slabs[c][i], Slab(c));
  }

  /** Freeing an object makes it, and no other block, dead. */
  lemma FreeLive(w: State, w': State, c: nat, f: nat, o: nat)
    requires Inv(w) && LiveObject(w, c, f, o) && f < FRAME_COUNT && o < 1024 && FreeStep(w, w', c, f, o)
    ensures LiveBlocks(w'.v) == LiveBlocks(w.v) - {Object(c, f, o)}
  {
    hide OwnersOk, SlicesOk, ListOk, SlabOk;
    LivePage(w, c, f, o);
    if |w.v.free[f]| + 1 >= Capacity(ObjectWords(c)) {
      OnlyLive(w, c, f, o);
    }
    LiveBlocksAre(w);
    LiveBlocksAre(w');
    hide LiveBlocks, Inv;
    forall x ensures LiveBlock(w', x) <==> LiveBlock(w, x) && x != Object(c, f, o) {}
  }

  lemma OnlyLive(w: State, c: nat, f: nat, o: nat)
    requires OwnersOk(w) && SlabsOk(w) && LiveObject(w, c, f, o) && f < FRAME_COUNT
    requires |w.v.free[f]| + 1 >= Capacity(ObjectWords(c))
    ensures forall o': nat | LiveObject(w, c, f, o') :: o' == o
  {
    LivePage(w, c, f, o);
    LiveLeavesRoom(w.mem[f], f, w.caches[c], ObjectWords(c), w.v.free[f], o);
    forall o': nat | LiveObject(w, c, f, o') ensures o' == o {
      OneLive(w.mem[f], f, w.caches[c], ObjectWords(c), w.v.free[f], o, o');
    }
  }

  /** The frame that a page takes back with its last live object. */
  ghost function PageBack(w: State, c: nat, f: nat): set<nat>
    requires c < CACHES && f in w.v.free
  {
    if |w.v.free[f]| + 1 < Capacity(ObjectWords(c)) then {} else {f}
  }

  /** What freeing an object does besides: it frees the page with the last object, and no table
      comes or goes. */
  lemma FreeAccounts(w: State, w': State, c: nat, f: nat, o: nat)
    requires Inv(w) && LiveObject(w, c, f, o) && f < FRAME_COUNT && o < 1024 && FreeStep(w, w', c, f, o)
    ensures Accounts(w, w', {}, PageBack(w, c, f), {}) && Tables(w') == Tables(w)
    ensures w'.dir == w.dir && w'.mem[w.dir] == w.mem[w.dir]
  {
    assert Tables(w') == Tables(w) && Orphans(w') == Orphans(w);
  }
}
