/** The slab caches, kmalloc and the thread stacks over the paged machine. */
module KernelMemory {
  import opened Words
  import opened Hardware
  import opened Pmm
  import opened Paging
  import opened SlabPage
  import opened World
  import opened Transitions
  import opened Slices
  import opened HeapSteps
  import opened LargeSteps
  import opened Isolation
  import opened HeapCalls
  import opened MemoryRuns
  import opened ThreadMemory
  import opened Reuse
  import opened ThreadSteps

  class Kernel {
    const paging: PagingUnit
    /** The addresses of the eight kmalloc caches and of `thread_pool`. */
    const caches: seq<Word>
    /** `cache->slabs` of each. */
    var heads: seq<Word>
    var nextLarge: Word
    var nextStack: Word
    var nextThreadId: Word
    ghost var view: View

    ghost function Snapshot(): State
      reads this, paging.cpu, paging.pmm
    {
      State(paging.cpu.mem, paging.dir, paging.pmm.used, heads, caches, nextLarge / 0x1000, nextStack / 0x1000, view)
    }

    ghost predicate Valid()
      reads this, paging, paging.cpu, paging.pmm, paging.pmm.bitmap
    {
      && paging.Valid() && Inv(Snapshot())
      && nextLarge % 0x1000 == 0 && nextStack % 0x1000 == 0
    }

    /** Right after paging is on: the used frames are the boot-reserved ones and the boot table, no
        block is allocated. */
    constructor Initialize(paging: PagingUnit, caches: seq<Word>, ghost bootTable: nat)
      requires paging.Valid() && BootMapped(paging.cpu.mem, paging.dir, bootTable)
      requires 0 in paging.pmm.used && bootTable != 0
      requires forall f | 0xC_0000 <= f < FRAME_COUNT :: f in paging.pmm.used
      requires |caches| == CACHES && Distinct(caches) && bootTable < 1024
      ensures this.paging == paging && this.caches == caches && Valid()
      ensures forall x :: !LiveBlock(Snapshot(), x)
      ensures view.owner == BootOwners(paging.pmm.used, bootTable) && view.boot == paging.pmm.used - {bootTable}
      ensures nextLarge == 0xC000_0000 && nextStack == 0xD000_0000 && Orphans(Snapshot()) == {}
      ensures nextThreadId == 1
    {
      this.paging, this.caches := paging, caches;
      heads := seq(CACHES, _ => 0);
      nextLarge, nextStack, nextThreadId := 0xC000_0000, 0xD000_0000, 1;
      view := View(BootOwners(paging.pmm.used, bootTable), paging.pmm.used - {bootTable},
                   seq(CACHES, _ => []), map[], map[]);
      new;
      BootInv(Snapshot(), bootTable);
    }

    /** The frame can be written through its own page and is no paging structure. */
    ghost predicate Writable(f: nat)
      reads this, paging, paging.cpu, paging.pmm, paging.pmm.bitmap
    {
      && paging.Valid() && f < FRAME_COUNT
      && Walk(paging.cpu.mem, paging.dir, f) == Some(f) && !IsTable(paging.cpu.mem, paging.dir, f)
    }

    /** A load of word o of the page of an identity-mapped frame. */
    method LoadWord(f: nat, o: nat) returns (w: Word)
      requires Writable(f) && o < 1024
      modifies paging.cpu`tlb
      ensures Writable(f) && w == paging.cpu.mem[f][o]
    {
      w := paging.Read(Address(f, o));
    }

    method StoreWord(f: nat, o: nat, w: Word)
      requires Writable(f) && o < 1024
      modifies paging.cpu`tlb, paging.cpu`mem
      ensures Writable(f) && paging.cpu.mem == SetWord(old(paging.cpu.mem), f, o, w)
    {
      paging.Write(Address(f, o), w);
      SameDirectory(old(paging.cpu.mem), paging.cpu.mem, paging.dir, f);
    }

    /** `*(void **)object = slab->free_list; slab->free_list = object; slab->free_count++` */
    method PushObject(f: nat, o: nat)
      requires Writable(f) && 5 <= o < 1024 && paging.cpu.mem[f][FREE_COUNT] < 0xFFFF_FFFF
      modifies paging.cpu`tlb, paging.cpu`mem
      ensures Writable(f)
      ensures paging.cpu.mem == old(paging.cpu.mem)[f := Put(old(paging.cpu.mem)[f], f, o)]
    {
      var head := LoadWord(f, FREE_LIST);
      StoreWord(f, o, head);
      StoreWord(f, FREE_LIST, Address(f, o));
      var count := LoadWord(f, FREE_COUNT);
      StoreWord(f, FREE_COUNT, count + 1);
    }

    /** `slab_take` */
    method SlabTake(f: nat) returns (obj: Word)
      requires Writable(f) && paging.cpu.mem[f][FREE_COUNT] > 0
      requires paging.cpu.mem[f][FREE_LIST] / 0x1000 == f && paging.cpu.mem[f][FREE_LIST] % 4 == 0
      modifies paging.cpu`tlb, paging.cpu`mem
      ensures Writable(f) && obj == old(paging.cpu.mem)[f][FREE_LIST]
      ensures paging.cpu.mem == old(paging.cpu.mem)[f := Taken(old(paging.cpu.mem)[f])]
    {
      obj := LoadWord(f, FREE_LIST);
      var next := paging.Read(obj);
      StoreWord(f, FREE_LIST, next);
      var count := LoadWord(f, FREE_COUNT);
      StoreWord(f, FREE_COUNT, count - 1);
    }

    /** The loop of `slab_create`: every object of the page is pushed on the free list. */
    method BuildList(c: nat, f: nat)
      requires Writable(f) && c < CACHES && Chained(paging.cpu.mem[f], f, ObjectWords(c), 0)
      modifies paging.cpu`tlb, paging.cpu`mem
      ensures Writable(f)
      ensures paging.cpu.mem == old(paging.cpu.mem)[f := paging.cpu.mem[f]]
      ensures Chained(paging.cpu.mem[f], f, ObjectWords(c), Capacity(ObjectWords(c)))
      ensures paging.cpu.mem[f][NEXT] == old(paging.cpu.mem)[f][NEXT]
      ensures paging.cpu.mem[f][CACHE] == old(paging.cpu.mem)[f][CACHE]
    {
      var s := ObjectWords(c);
      var count := Capacity(s);
      var i := 0;
      while i < count
        invariant i <= count && Writable(f)
        invariant paging.cpu.mem == old(paging.cpu.mem)[f := paging.cpu.mem[f]]
        invariant paging.cpu.mem[f][NEXT] == old(paging.cpu.mem)[f][NEXT]
        invariant paging.cpu.mem[f][CACHE] == old(paging.cpu.mem)[f][CACHE]
        invariant Chained(paging.cpu.mem[f], f, s, i)
      {
        ChainedStep(paging.cpu.mem[f], f, s, i);
        PushObject(f, ObjectAt(s, i));
        i := i + 1;
      }
    }

    /** The header of a new slab page: no next slab, no objects yet. */
    method InitHeader(c: nat, f: nat)
      requires Writable(f) && c < CACHES == |caches|
      modifies paging.cpu`tlb, paging.cpu`mem
      ensures Writable(f)
      ensures paging.cpu.mem == old(paging.cpu.mem)[f := paging.cpu.mem[f]]
      ensures paging.cpu.mem[f][NEXT] == 0 && paging.cpu.mem[f][CACHE] == caches[c]
      ensures Chained(paging.cpu.mem[f], f, ObjectWords(c), 0)
    {
      StoreWord(f, NEXT, 0);
      StoreWord(f, CACHE, caches[c]);
      StoreWord(f, FREE_LIST, 0);
      StoreWord(f, FREE_COUNT, 0);
    }

    /** The header and the free list of a new slab page, as `slab_create` writes them. */
    method FillPage(c: nat, f: nat)
      requires Writable(f) && c < CACHES == |caches|
      modifies paging.cpu`tlb, paging.cpu`mem
      ensures Writable(f)
      ensures paging.cpu.mem == old(paging.cpu.mem)[f := paging.cpu.mem[f]]
      ensures PageOk(paging.cpu.mem[f], f, caches[c], ObjectWords(c), Built(ObjectWords(c), Capacity(ObjectWords(c))))
      ensures paging.cpu.mem[f][NEXT] == 0
    {
      var s := ObjectWords(c);
      InitHeader(c, f);
      BuildList(c, f);
      ChainedPage(paging.cpu.mem[f], f, caches[c], s);
      StoreWord(f, CAPACITY, Capacity(s));
    }

    /** `pmm_alloc`: the lowest free frame, which then belongs to nobody. */
    method AllocFrame() returns (address: Word)
      requires Valid()
      modifies this`view, paging.pmm, paging.pmm.bitmap
      ensures Valid()
      ensures address == NO_FRAME <==> AllUsed(old(Snapshot()).used)
      ensures address == NO_FRAME ==> Snapshot() == old(Snapshot())
      ensures address != NO_FRAME ==>
                && address % 0x1000 == 0
                && address / 0x1000 == Lowest(old(Snapshot()).used)
                && Snapshot() == Allocated(old(Snapshot()), address / 0x1000)
                && Untouched(old(Snapshot()), Snapshot()) && Kept(old(Snapshot()), Snapshot(), {})
    {
      ghost var w := Snapshot();
      address := paging.pmm.Alloc();
      if address != NO_FRAME {
        view := view.(owner := view.owner[address / 0x1000 := Orphan]);
        AllocatedInv(w, address / 0x1000);
      }
    }

    /** `pmm_free(frame * PAGE_SIZE)` of a frame that belongs to nobody. */
    method FreeFrame(frame: nat)
      requires Valid() && frame < FRAME_COUNT && Owns(Snapshot(), frame, Orphan)
      modifies this`view, paging.pmm, paging.pmm.bitmap
      ensures Valid() && Snapshot() == Released(old(Snapshot()), frame)
      ensures Untouched(old(Snapshot()), Snapshot()) && Kept(old(Snapshot()), Snapshot(), {})
    {
      ghost var w := Snapshot();
      ReleasedInv(w, frame);
      var address := frame * 0x1000;
      assert address / 0x1000 == frame;
      paging.pmm.Free(address);
      view := view.(owner := view.owner - {frame});
    }

    /** `paging_map(page * PAGE_SIZE, physical, 3)` of a page that no slab and no slice uses. */
    method MapPage(page: nat, physical: Word)
      requires Valid() && page < WINDOW && page != paging.dir && !Watched(Snapshot(), page)
      modifies this`view, paging.cpu`mem, paging.cpu`tlb, paging.pmm, paging.pmm.bitmap
      ensures Valid()
      ensures MapStep(old(Snapshot()).mem, old(Snapshot()).used, Snapshot().mem, Snapshot().used,
                      paging.dir, page, MakeEntry(physical, 3))
      ensures Snapshot() == AfterMap(old(Snapshot()), Snapshot().mem, Snapshot().used, page)
      ensures Untouched(old(Snapshot()), Snapshot()) && Kept(old(Snapshot()), Snapshot(), {})
    {
      hide SlabsOk, SlicesOk, Watched, TablesOwned, Kept;
      ghost var w := Snapshot();
      var va := page * 0x1000;
      assert va / 0x1000 == page;
      paging.Map(va, physical, 3);
      MappedInv(w, paging.cpu.mem, paging.pmm.used, page, MakeEntry(physical, 3));
      view := view.(owner := MapOwner(view.owner, paging.pmm.used, page / 1024));
    }

    /** `paging_unmap(page * PAGE_SIZE)` of a page that no slab and no slice uses. */
    method UnmapPage(page: nat)
      requires Valid() && page < WINDOW && page != paging.dir && !Watched(Snapshot(), page)
      modifies paging.cpu`mem, paging.cpu`tlb
      ensures Valid()
      ensures UnmapStep(old(Snapshot()).mem, Snapshot().mem, paging.dir, page)
      ensures Snapshot() == old(Snapshot()).(mem := Snapshot().mem)
      ensures Untouched(old(Snapshot()), Snapshot()) && Kept(old(Snapshot()), Snapshot(), {})
    {
      ghost var w := Snapshot();
      var va := page * 0x1000;
      assert va / 0x1000 == page;
      paging.Unmap(va);
      UnmappedInv(w, paging.cpu.mem, page);
    }

    /** `pmm_alloc`, then `paging_map(frame, frame, 3)`. The store that follows faults unless the
        page got mapped. */
    method TakeFrame() returns (r: Creation)
      requires Valid()
      modifies this`view, paging.cpu`mem, paging.cpu`tlb, paging.pmm, paging.pmm.bitmap
      ensures Valid()
      ensures r == NoFrame <==> AllUsed(old(Snapshot()).used)
      ensures r == NoFrame ==> Snapshot() == old(Snapshot())
      ensures r == Faulted ==>
                CannotMapOwn(old(Snapshot())) && Snapshot() == Allocated(old(Snapshot()), Lowest(old(Snapshot()).used))
      ensures r.Filled? ==>
                TookStep(old(Snapshot()), Snapshot(), r.frame) && Walk(paging.cpu.mem, paging.dir, r.frame).Some?
    {
      hide SlabsOk, SlicesOk, Watched, TablesOwned, BootOwned, BootExactly, Kept, TookFrame, CannotMapOwn;
      ghost var w := Snapshot();
      var frame := paging.pmm.Alloc();
      if frame == NO_FRAME {
        return NoFrame;
      }
      var f := frame / 0x1000;
      FreeFrameLow(w, f);
      AllocatedTables(w, f);
      assert frame == f * 0x1000;
      paging.Map(frame, frame, 3);
      view := view.(owner := MapOwner(view.owner[f := Orphan], paging.pmm.used, f / 1024));
      TookFrameStep(w, Snapshot(), f);
      r := if paging.cpu.Resolve(f).None? then Faulted else Filled(f);
    }

    /** `slab_create` */
    method SlabCreate(c: nat) returns (r: Creation)
      requires Valid() && c < CACHES
      modifies this`view, paging.cpu`mem, paging.cpu`tlb, paging.pmm, paging.pmm.bitmap
      ensures Valid()
      ensures r == NoFrame <==> AllUsed(old(Snapshot()).used)
      ensures r == NoFrame ==> Snapshot() == old(Snapshot())
      ensures r == Faulted ==>
                CannotMapOwn(old(Snapshot())) && Snapshot() == Allocated(old(Snapshot()), Lowest(old(Snapshot()).used))
      ensures r.Filled? ==>
                && FreshPage(Snapshot(), c, r.frame) && Writable(r.frame)
                && Untouched(old(Snapshot()), Snapshot()) && OwnersExtended(old(Snapshot()), Snapshot())
                && TookFrame(old(Snapshot()), Snapshot(), r.frame)
    {
      ghost var w := Snapshot();
      r := TakeFrame();
      if r.Filled? {
        ghost var w1 := Snapshot();
        FreeFrameLow(w, r.frame);
        FillOrphan(c, r.frame);
        UntouchedTrans(w, w1, Snapshot());
        TookFrameSame(w, w1, Snapshot(), r.frame);
      }
    }

    method FillOrphan(c: nat, f: nat)
      requires Valid() && c < CACHES && Owns(Snapshot(), f, Orphan)
      requires 0 < f < LARGE_BASE && Walk(paging.cpu.mem, paging.dir, f) == Some(f)
      modifies paging.cpu`mem, paging.cpu`tlb
      ensures Valid() && Writable(f) && FreshPage(Snapshot(), c, f)
      ensures Untouched(old(Snapshot()), Snapshot())
      ensures Snapshot().v.owner == old(Snapshot()).v.owner
      ensures Snapshot().used == old(Snapshot()).used && Snapshot().mem[paging.dir] == old(Snapshot()).mem[paging.dir]
    {
      ghost var w := Snapshot();
      InUseIsNoTable(w, f);
      FillPage(c, f);
      SpareWritten(w, f, paging.cpu.mem[f]);
    }

    /** A slab with a free object gives its first one. */
    method TakeFrom(c: nat, f: nat) returns (obj: Word)
      requires Valid() && c < CACHES && Owns(Snapshot(), f, Slab(c)) && SlabOk(Snapshot(), f, c)
      requires Writable(f) && view.free[f] != []
      modifies this`view, paging.cpu`mem, paging.cpu`tlb
      ensures Valid()
      ensures old(Snapshot()).mem[f][FREE_COUNT] > 0 && old(view).free[f][0] < 1024
      ensures Snapshot() == TakenFrom(old(Snapshot()), f) && obj == Address(f, old(view).free[f][0])
    {
      ghost var w := Snapshot();
      TakenInv(w, c, f);
      obj := SlabTake(f);
      view := view.(free := view.free[f := view.free[f][1..]]);
    }

    /** `slab->next = cache->slabs; cache->slabs = slab; return slab_take(slab)` */
    method LinkAndTakeWords(c: nat, f: nat) returns (obj: Word)
      requires Writable(f) && c < |heads| && paging.cpu.mem[f][FREE_COUNT] > 0
      requires paging.cpu.mem[f][FREE_LIST] / 0x1000 == f && paging.cpu.mem[f][FREE_LIST] % 4 == 0
      modifies this`heads, paging.cpu`mem, paging.cpu`tlb
      ensures Writable(f) && obj == old(paging.cpu.mem)[f][FREE_LIST]
      ensures heads == old(heads)[c := f * 0x1000]
      ensures paging.cpu.mem == old(paging.cpu.mem)[f := LinkedTaken(old(paging.cpu.mem)[f], old(heads)[c])]
    {
      StoreWord(f, NEXT, heads[c]);
      heads := heads[c := f * 0x1000];
      obj := SlabTake(f);
    }

    method LinkAndTake(c: nat, f: nat) returns (obj: Word)
      requires Valid() && FreshPage(Snapshot(), c, f) && Writable(f)
      modifies this`view, this`heads, paging.cpu`mem, paging.cpu`tlb
      ensures Valid() && old(Snapshot()).mem[f][FREE_COUNT] > 0
      ensures Snapshot() == FreshState(old(Snapshot()), c, f) && obj == Address(f, FirstObject(c))
    {
      hide ListOk, SlabOk, SlicesOk, TablesOwned, BootOwned, Kept, PageOk;
      ghost var w := Snapshot();
      LinkedTakenOk(w, c, f, w.heads[c]);
      FreshInv(w, c, f);
      obj := LinkAndTakeWords(c, f);
      view := FreshState(w, c, f).v;
    }

    /** The loop of `slab_alloc`: the first slab with a free object, 0 when there is none. */
    method FindOpen(c: nat) returns (f: nat)
      requires Valid() && c < CACHES
      modifies paging.cpu`tlb
      ensures Valid() && Snapshot() == old(Snapshot())
      ensures f == 0 ==> FirstOpen(view.slabs[c], view.free, 0) == |view.slabs[c]|
      ensures f != 0 ==>
                && FirstOpen(view.slabs[c], view.free, 0) < |view.slabs[c]|
                && f == view.slabs[c][FirstOpen(view.slabs[c], view.free, 0)]
    {
      hide SlabsOk, SlicesOk, OwnersOk;
      ghost var w := Snapshot();
      ListHead(w, c);
      ghost var list: seq<nat> := view.slabs[c];
      ghost var i := 0;
      var slab := heads[c];
      while slab != 0
        invariant Valid() && Snapshot() == w && i <= |list| && slab == SlabLink(list, i)
        invariant FirstOpen(list, w.v.free, 0) == FirstOpen(list, w.v.free, i)
        decreases |list| - i
      {
        ListedSlab(w, c, i);
        f := slab / 0x1000;
        var count := LoadWord(f, FREE_COUNT);
        if count > 0 {
          return;
        }
        slab := LoadWord(f, NEXT);
        i := i + 1;
      }
      assert i == |list| by {
        if i < |list| {
          ListedSlab(w, c, i);
        }
      }
      f := 0;
    }

    /** `slab_alloc` */
    method SlabAlloc(c: nat) returns (out: Outcome)
      requires Valid() && c < CACHES
      modifies this`view, this`heads, paging.cpu`mem, paging.cpu`tlb, paging.pmm, paging.pmm.bitmap
      ensures Valid()
      ensures AllocStep(old(Snapshot()), Snapshot(), c, out) && !out.Torn?
      ensures Kept(old(Snapshot()), Snapshot(), {})
    {
      ghost var w := Snapshot();
      var f := FindOpen(c);
      if f == 0 {
        out := AllocFresh(c);
      } else {
        ghost var k := FirstOpen(view.slabs[c], view.free, 0);
        ListedSlab(w, c, k);
        FirstOpenIs(view.slabs[c], view.free, 0);
        TakenInv(w, c, f);
        var obj := TakeFrom(c, f);
        out := Returned(obj);
      }
    }

    /** `slab_alloc` when no slab of the cache has a free object. */
    method AllocFresh(c: nat) returns (out: Outcome)
      requires Valid() && c < CACHES
      requires FirstOpen(view.slabs[c], view.free, 0) == |view.slabs[c]|
      modifies this`view, this`heads, paging.cpu`mem, paging.cpu`tlb, paging.pmm, paging.pmm.bitmap
      ensures Valid()
      ensures AllocStep(old(Snapshot()), Snapshot(), c, out) && !out.Torn?
      ensures Kept(old(Snapshot()), Snapshot(), {})
    {
      hide Kept, Untouched, OwnersOk, SlabsOk, SlicesOk, AllocStep, FreshPage, TookFrame, CannotMapOwn, OwnersExtended;
      ghost var w := Snapshot();
      var r := SlabCreate(c);
      match r
      case NoFrame =>
        NoFreshPage(w, w, c, Returned(0));
        return Returned(0);
      case Faulted =>
        NoFreshPage(w, Snapshot(), c, PageFault);
        return PageFault;
      case Filled(f) =>
        ghost var w1 := Snapshot();
        FreshDone(w, w1, c, f);
        var obj := LinkAndTake(c, f);
        return Returned(obj);
    }

    /** The slabs of a list can be read and written through their own pages. */
    ghost predicate ListWritable(list: seq<nat>)
      reads this, paging, paging.cpu, paging.pmm, paging.pmm.bitmap
    {
      && paging.Valid()
      && forall k | 0 <= k < |list| ::
           0 < list[k] < FRAME_COUNT && Walk(paging.cpu.mem, paging.dir, list[k]) == Some(list[k]) &&
           !IsTable(paging.cpu.mem, paging.dir, list[k])
    }

    /** The unlink loop: finds the link that holds the slab. Link 0 stands for `&cache->slabs`,
        any other for the header of that frame. */
    method FindLink(c: nat, f: nat, ghost list: seq<nat>, ghost i: nat) returns (link: nat)
      requires c < |heads| && Chain(paging.cpu.mem, heads[c], list) && i < |list| && list[i] == f && ListWritable(list)
      modifies paging.cpu`tlb
      ensures ListWritable(list) && link == if i == 0 then 0 else list[i - 1]
    {
      ghost var j := 0;
      link := 0;
      var slab := heads[c];
      while slab != f * 0x1000
        invariant ListWritable(list)
        invariant j <= i && slab == SlabLink(list, j) && link == if j == 0 then 0 else list[j - 1]
        decreases i - j
      {
        assert j < i;
        assert ChainedAt(paging.cpu.mem, list, j);
        link := slab / 0x1000;
        slab := LoadWord(link, NEXT);
        j := j + 1;
      }
      assert j == i;
    }

    /** `*link = slab->next` */
    method Unlink(c: nat, f: nat, ghost list: seq<nat>, ghost i: nat)
      requires c < |heads| && Chain(paging.cpu.mem, heads[c], list) && i < |list| && list[i] == f && ListWritable(list)
      modifies this`heads, paging.cpu`mem, paging.cpu`tlb
      ensures paging.Valid()
      ensures heads == if i == 0 then old(heads)[c := SlabLink(list, 1)] else old(heads)
      ensures paging.cpu.mem == Unlinked(old(paging.cpu.mem), list, i)
    {
      var link := FindLink(c, f, list, i);
      assert ChainedAt(paging.cpu.mem, list, i);
      var next := LoadWord(f, NEXT);
      if link == 0 {
        heads := heads[c := next];
      } else {
        StoreWord(link, NEXT, next);
      }
    }

    /** A page whose last live object goes leaves its list; its frame belongs to nobody. */
    method RetireSlab(c: nat, f: nat, ghost w: State, ghost o: nat, ghost i: nat)
      requires paging.Valid() && RetireReady(w, c, f, o, i) && Snapshot() == WithFrame(w, f, Put(w.mem[f], f, o))
      modifies this`view, this`heads, paging.cpu`mem, paging.cpu`tlb
      ensures paging.Valid() && Snapshot() == AfterUnlink(w, c, f, o, i)
    {
      hide SlicesOk, TablesOwned, BootOwned, SlabOk, RetireOk;
      PutList(w, Snapshot(), c, f, o);
      Unlink(c, f, w.v.slabs[c], i);
      view := AfterUnlink(w, c, f, o, i).v;
    }

    /** The unlinking and the return of the page, at the end of `slab_free`. */
    method ReturnSlab(c: nat, f: nat, ghost w: State, ghost o: nat, ghost i: nat)
      requires paging.Valid() && RetireReady(w, c, f, o, i) && Snapshot() == WithFrame(w, f, Put(w.mem[f], f, o))
      requires nextLarge % 0x1000 == 0 && nextStack % 0x1000 == 0
      modifies this`view, this`heads, paging.cpu`mem, paging.cpu`tlb, paging.pmm, paging.pmm.bitmap
      ensures Valid() && SlabReturned(w, Snapshot(), c, f) && Kept(w, Snapshot(), {Object(c, f, o)})
    {
      RetireSlab(c, f, w, o, i);
      ghost var w1 := Snapshot();
      AfterUnlinkInv(w, w1, c, f, o, i);
      FreeFrame(f);
      ReturnedKept(w, w1, Snapshot(), c, f, o, i);
    }

    /** The object goes on its page's free list; full says whether the page has no live one left. */
    method PutObject(f: nat, o: nat) returns (full: bool)
      requires Writable(f) && 5 <= o < 1024 && paging.cpu.mem[f][FREE_COUNT] < 0xFFFF_FFFF
      modifies paging.cpu`mem, paging.cpu`tlb
      ensures Writable(f)
      ensures paging.cpu.mem == old(paging.cpu.mem)[f := Put(old(paging.cpu.mem)[f], f, o)]
      ensures full <==> old(paging.cpu.mem)[f][FREE_COUNT] + 1 >= old(paging.cpu.mem)[f][CAPACITY]
    {
      PushObject(f, o);
      var count := LoadWord(f, FREE_COUNT);
      var capacity := LoadWord(f, CAPACITY);
      full := count >= capacity;
    }

    /** `slab_free` */
    method SlabFree(c: nat, obj: Word)
      requires Valid() && c < CACHES && obj % 4 == 0
      requires LiveObject(Snapshot(), c, obj / 0x1000, obj % 0x1000 / 4)
      requires NoThread(Snapshot(), c, obj / 0x1000, obj % 0x1000 / 4)
      modifies this`view, this`heads, paging.cpu`mem, paging.cpu`tlb, paging.pmm, paging.pmm.bitmap
      ensures Valid() && FreeStep(old(Snapshot()), Snapshot(), c, obj / 0x1000, obj % 0x1000 / 4)
      ensures Kept(old(Snapshot()), Snapshot(), {Object(c, obj / 0x1000, obj % 0x1000 / 4)})
    {
      hide Kept, OwnersOk, SlabsOk, SlicesOk, SlabOk, NoThread, RetireReady, SlabReturned, IsTable, FreeStep, Put;
      hide LiveObject;
      var f, o := obj / 0x1000, obj % 0x1000 / 4;
      ghost var w := Snapshot();
      LivePage(w, c, f, o);
      FullPage(w, c, f, o);
      DirIs(w);
      var full := PutObject(f, o);
      if !full {
        PutFrees(w, c, f, o);
        view := SlabChanged(w, f, Put(w.mem[f], f, o), [o] + view.free[f]).v;
      } else {
        ghost var i := ListIndex(w, c, f, o);
        ReturnSlab(c, f, w, o, i);
        ReturnFrees(w, Snapshot(), c, f, o);
      }
    }

    /** One turn of the loop that lays a run of pages: `pmm_alloc`, then `paging_map`. */
    method LayPage(page: nat, ghost w0: State, ghost b: nat, ghost end: nat, ghost frames: seq<nat>, ghost i: nat)
      returns (frame: Word)
      requires Valid() && LaidOrStuck(w0, Snapshot(), b, end, frames, i) && page == b + i < end <= STACK_END
      requires Booked(w0, Snapshot(), frames, i)
      modifies this`view, paging.cpu`mem, paging.cpu`tlb, paging.pmm, paging.pmm.bitmap
      ensures Valid() && Kept(old(Snapshot()), Snapshot(), {}) && view.slices == old(view).slices
      ensures LiveBlocks(view) == LiveBlocks(old(view))
      ensures frame == NO_FRAME <==> AllUsed(old(Snapshot()).used)
      ensures frame == NO_FRAME ==> Snapshot() == old(Snapshot())
      ensures frame != NO_FRAME ==>
                && LaidOrStuck(w0, Snapshot(), b, end, NowLaid(Snapshot(), b, frames, frame / 0x1000), i + 1)
                && Booked(w0, Snapshot(), NowLaid(Snapshot(), b, frames, frame / 0x1000), i + 1)
    {
      hide Kept, Untouched, OwnersOk, SlabsOk, SlicesOk, Laid, Stuck, LaidOrStuck, NowLaid, Booked, LiveBlocks;
      ghost var w := Snapshot();
      frame := AllocFrame();
      if frame == NO_FRAME {
        KeptRefl(w);
      } else {
        NotStuck(w0, w, b, end, frames, i);
        MapLaid(page, frame / 0x1000, w, w0, b, end, frames);
      }
    }

    /** The frame just taken is mapped at the next page of the run. */
    method MapLaid(page: nat, f: nat, ghost w: State, ghost w0: State, ghost b: nat, ghost end: nat,
                   ghost frames: seq<nat>)
      requires Valid() && f < FRAME_COUNT && Inv(w) && Snapshot() == Allocated(w, f) && !AllUsed(w.used)
                 && f == Lowest(w.used)
      requires Untouched(w, Snapshot()) && Kept(w, Snapshot(), {})
      requires Laid(w0, w, b, end, frames) && page == b + |frames| < end && Booked(w0, w, frames, |frames|)
      modifies this`view, paging.cpu`mem, paging.cpu`tlb, paging.pmm, paging.pmm.bitmap
      ensures Valid() && Kept(w, Snapshot(), {}) && view.slices == w.v.slices && LiveBlocks(view) == LiveBlocks(w.v)
      ensures LaidOrStuck(w0, Snapshot(), b, end, NowLaid(Snapshot(), b, frames, f), |frames| + 1)
      ensures Booked(w0, Snapshot(), NowLaid(Snapshot(), b, frames, f), |frames| + 1)
    {
      hide Kept, Untouched, OwnersOk, SlabsOk, SlicesOk, Watched, PageOk, Booked, MapStep, LiveBlocks;
      ghost var w1 := Snapshot();
      UntouchedVacant(w, w1, b, end);
      MapPage(page, f * 0x1000);
      ghost var w2 := Snapshot();
      UntouchedVacant(w1, w2, b, end);
      KeptChain(w, w1, w2);
      UntouchedLive(w, w1);
      UntouchedLive(w1, w2);
      LayNext(w0, w, w1, w2, b, end, frames, page, f);
    }

    /** Stores the header of a large block through its first page. */
    method WriteHeader(vbase: Word, pages: Word, ghost f: nat)
      requires Valid() && vbase % 0x1000 == 0 && f < FRAME_COUNT && Owns(Snapshot(), f, Orphan)
      requires Walk(paging.cpu.mem, paging.dir, vbase / 0x1000) == Some(f)
      modifies paging.cpu`mem, paging.cpu`tlb
      ensures Valid() && Untouched(old(Snapshot()), Snapshot()) && Kept(old(Snapshot()), Snapshot(), {})
      ensures Snapshot() == WithFrame(old(Snapshot()), f, Headed(old(Snapshot()).mem[f], pages)) && f != paging.dir
      ensures forall p | 0 <= p < FRAME_COUNT ::
                Walk(Snapshot().mem, paging.dir, p) == Walk(old(Snapshot()).mem, paging.dir, p)
    {
      hide Untouched, Kept, OwnersOk, SlabsOk, SlicesOk, Walk, IsTable;
      ghost var w := Snapshot();
      NotTheDirectory(w, f);
      SpareWritten(w, f, Headed(w.mem[f], pages));
      StoreAt(vbase, LARGE_MAGIC, vbase / 0x1000, 0, f);
      StoreAt(vbase + 4, pages, vbase / 0x1000, 1, f);
      assert paging.cpu.mem == w.mem[f := Headed(w.mem[f], pages)];
    }

    /** The loop of `kmalloc_large`, and of `thread_create_sized` as long as there are frames. */
    method LayPages(vbase: Word, pages: nat, ghost w0: State, ghost end: nat)
      returns (gone: nat, ghost frames: seq<nat>)
      requires Valid() && vbase % 0x1000 == 0 && 0 < pages && vbase / 0x1000 + pages <= end <= STACK_END
      requires Laid(w0, Snapshot(), vbase / 0x1000, end, []) && Booked(w0, Snapshot(), [], 0)
      modifies this`view, paging.cpu`mem, paging.cpu`tlb, paging.pmm, paging.pmm.bitmap
      ensures Valid() && Kept(old(Snapshot()), Snapshot(), {}) && view.slices == old(view).slices
      ensures LiveBlocks(view) == LiveBlocks(old(view))
      ensures gone <= pages && (gone < pages ==> AllUsed(Snapshot().used))
      ensures LaidOrStuck(w0, Snapshot(), vbase / 0x1000, end, frames, gone) && Booked(w0, Snapshot(), frames, gone)
      ensures w0.dir < FRAME_COUNT && Reached(w0, vbase / 0x1000, pages, |frames|)
    {
      hide Untouched, Kept, OwnersOk, SlabsOk, SlicesOk, Laid, Stuck, Booked, LiveBlocks;
      ghost var w := Snapshot();
      ghost var b := vbase / 0x1000;
      KeptRefl(w);
      frames := [];
      var i := 0;
      while i < pages
        invariant i <= pages && Valid() && Kept(w, Snapshot(), {}) && view.slices == w.v.slices
        invariant LiveBlocks(view) == LiveBlocks(w.v)
        invariant LaidOrStuck(w0, Snapshot(), b, end, frames, i) && Booked(w0, Snapshot(), frames, i)
      {
        ghost var w1 := Snapshot();
        var frame := LayPage(vbase / 0x1000 + i, w0, b, end, frames, i);
        if frame == NO_FRAME {
          UsedFrames(w1);
          GoneAsFar(w0, w1, b, end, frames, i, pages);
          return i, frames;
        }
        NotStuck(w0, w1, b, end, frames, i);
        KeptChain(w, w1, Snapshot());
        frames := NowLaid(Snapshot(), b, frames, frame / 0x1000);
        i := i + 1;
      }
      UsedFrames(Snapshot());
      GoneAsFar(w0, Snapshot(), b, end, frames, i, pages);
      return i, frames;
    }

    /** `kmalloc_large` once the pages are laid: the header is stored and the block handed out, with
        or without its last page. */
    method FinishLarge(vbase: Word, pages: nat, ghost w0: State, ghost frames: seq<nat>) returns (out: Outcome)
      requires Valid() && vbase % 0x1000 == 0 && 0 < pages <= 0x2_FFFF && vbase / 0x1000 + pages <= Snapshot().nextLarge
      requires LARGE_BASE <= vbase / 0x1000 && Snapshot().nextLarge <= LARGE_END
      requires LaidOrStuck(w0, Snapshot(), vbase / 0x1000, vbase / 0x1000 + pages, frames, pages)
      modifies this`view, paging.cpu`mem, paging.cpu`tlb
      ensures Valid() && Kept(old(Snapshot()), Snapshot(), {})
      ensures out.Returned? <==> |frames| == pages
      ensures out.PageFault? <==> |frames| < pages && pages == 1
      ensures out.Returned? ==> out.ptr == vbase + 8
      ensures out.Returned? ==> view.slices == old(view).slices[vbase / 0x1000 := Slice(frames, 0)]
      ensures LiveBlocks(view) == LiveBlocks(old(view)) + if out.Returned? then {Run(vbase / 0x1000)} else {}
      ensures view.owner == if out.Returned? then Claimed(old(view).owner, frames, vbase / 0x1000) else old(view).owner
      ensures Snapshot().used == old(Snapshot()).used && Snapshot().mem[paging.dir] == old(Snapshot()).mem[paging.dir]
      ensures paging.dir < FRAME_COUNT
    {
      hide Untouched, Kept, OwnersOk, SlabsOk, SlicesOk, Laid, Stuck, LaidOrStuck, Mounted, Vacant, LiveBlocks;
      ghost var w1 := Snapshot();
      ghost var b := vbase / 0x1000;
      HeaderPage(w0, w1, b, frames, pages);
      LaidVacant(w0, w1, b, b + pages, frames, pages);
      if paging.cpu.Resolve(vbase / 0x1000).None? {
        KeptRefl(w1);
        return PageFault;
      }
      WriteHeader(vbase, pages, frames[0]);
      ghost var w2 := Snapshot();
      if paging.cpu.Resolve(vbase / 0x1000 + pages - 1).None? {
        return Torn(vbase + 8);
      }
      LargeAdopt(w1, w2, b, pages, frames);
      view := SliceAdopted(w2, b, Slice(frames, 0)).v;
      KeptChain(w1, w2, Snapshot());
      return Returned(vbase + 8);
    }

    /** `kmalloc_large` once the addresses are reserved. */
    method LayLarge(vbase: Word, pages: nat, ghost w0: State)
      returns (out: Outcome, ghost frames: seq<nat>, ghost taken: set<nat>)
      requires Valid() && Snapshot() == w0 && vbase % 0x1000 == 0 && 0 < pages <= 0x2_FFFF
      requires LARGE_BASE <= vbase / 0x1000 && vbase / 0x1000 + pages == w0.nextLarge <= LARGE_END
      requires Laid(w0, w0, vbase / 0x1000, vbase / 0x1000 + pages, []) && Booked(w0, w0, [], 0)
      modifies this`view, paging.cpu`mem, paging.cpu`tlb, paging.pmm, paging.pmm.bitmap
      ensures Valid() && Kept(w0, Snapshot(), {})
      ensures out.Returned? && out.ptr != 0 <==> !Short(w0, vbase / 0x1000, pages)
      ensures out.PageFault? <==> LastTableMissing(w0, vbase / 0x1000, pages) && pages == 1
      ensures out.Torn? <==> LastTableMissing(w0, vbase / 0x1000, pages) && pages > 1
      ensures out.Returned? && out.ptr != 0 ==>
                && out.ptr == vbase + 8 && |frames| == pages
                && view.slices == old(view).slices[vbase / 0x1000 := Slice(frames, 0)]
      ensures LiveBlocks(view) == LiveBlocks(w0.v) + if Succeeded(out) then {Run(vbase / 0x1000)} else {}
      ensures LayTook(w0, Snapshot(), vbase / 0x1000, pages, out.Returned? && out.ptr != 0, frames, taken)
    {
      hide Untouched, Kept, OwnersOk, SlabsOk, SlicesOk, Laid, Stuck, LaidOrStuck, Booked, LayTook, LiveBlocks;
      var gone;
      gone, frames := LayPages(vbase, pages, w0, vbase / 0x1000 + pages);
      ghost var w1 := Snapshot();
      taken := Gained(w0, w1);
      out := Returned(0);
      if gone == pages {
        out := FinishLarge(vbase, pages, w0, frames);
        KeptChain(w0, w1, Snapshot());
      }
      FramesAtMost(w0, w1, vbase / 0x1000, vbase / 0x1000 + pages, frames, gone);
      LayEnds(w0, w1, Snapshot(), vbase / 0x1000, vbase / 0x1000 + pages, frames, gone, pages);
    }

    /** `kmalloc_large` */
    method KmallocLarge(size: Word) returns (out: Outcome, ghost frames: seq<nat>, ghost taken: set<nat>)
      requires Valid() && RegionRight(nextLarge, size)
      modifies this`view, this`nextLarge, paging.cpu`mem, paging.cpu`tlb, paging.pmm, paging.pmm.bitmap
      ensures Valid() && Kept(old(Snapshot()), Snapshot(), {}) && LargeOutcome(old(Snapshot()), size, out)
      ensures out.Returned? && out.ptr != 0 ==>
                out.ptr == old(nextLarge) + 8 && LargeAdded(old(Snapshot()), Snapshot(), frames, TruePages(size))
      ensures LiveBlocks(view) == LiveBlocks(old(view)) + if Succeeded(out) then {Run(old(nextLarge) / 0x1000)} else {}
      ensures LargeTook(old(Snapshot()), Snapshot(), size, out, frames, taken)
    {
      hide Untouched, Kept, OwnersOk, SlabsOk, Laid, Stuck, LaidOrStuck, Vacant, Booked, LayTook, LiveBlocks;
      hide RegionRight, TruePages, LargePages;
      ghost var w := Snapshot();
      RegionNumbers(nextLarge, size);
      var pages := LargePages(size);
      if Wrap(nextLarge + Wrap(pages * 0x1000)) > 0xD000_0000 {
        KeptRefl(w);
        return Returned(0), [], {};
      }
      var vbase := nextLarge;
      nextLarge := Wrap(nextLarge + Wrap(pages * 0x1000));
      ghost var w0 := w.(nextLarge := w.nextLarge + pages);
      assert Snapshot() == w0;
      LargeAdvanced(w, pages);
      LaidStart(w0, w.nextLarge, w.nextLarge + pages);
      BookedStart(w0);
      FreshCursor(w);
      out, frames, taken := LayLarge(vbase, pages, w0);
      KeptChain(w, w0, Snapshot());
      LayTookFrom(w, w0, Snapshot(), w.nextLarge, pages, out.Returned? && out.ptr != 0, frames, taken);
    }

    /** One turn of the loop that takes a run of pages down: `paging_get_physical`, `paging_unmap`,
        `pmm_free`. */
    method ReleasePage(page: nat, ghost b: nat, ghost end: nat, ghost frames: seq<nat>, ghost i: nat)
      requires Valid() && Remaining(Snapshot(), b, end, frames, i) && i < |frames| && page == b + i
      modifies this`view, paging.cpu`mem, paging.cpu`tlb, paging.pmm, paging.pmm.bitmap
      ensures Valid() && Remaining(Snapshot(), b, end, frames, i + 1) && Kept(old(Snapshot()), Snapshot(), {})
      ensures Snapshot().used == old(Snapshot()).used - {frames[i]}
      ensures view == old(view).(owner := old(view).owner - {frames[i]})
      ensures paging.dir < FRAME_COUNT && Snapshot().mem[paging.dir] == old(Snapshot()).mem[paging.dir]
    {
      hide SlabsOk, SlicesOk, Watched, PageOk;
      ghost var w := Snapshot();
      RemainingPage(w, b, end, frames, i, page);
      PhysicalIsTranslation(w.mem, w.dir, page);
      var f := PageFrame(page);
      assert f == frames[i];
      UnmapPage(page);
      ghost var w1 := Snapshot();
      FreeFrame(f);
      UntouchedTrans(w, w1, Snapshot());
      UntouchedVacant(w, Snapshot(), b, end);
      KeptChain(w, w1, Snapshot());
      RemainingStep(w, w1, Snapshot(), b, end, frames, i, page, f);
    }

    /** `paging_get_physical(page * PAGE_SIZE)` of a mapped page, as a frame number. */
    method PageFrame(page: nat) returns (f: nat)
      requires Valid() && page < WINDOW && Walk(paging.cpu.mem, paging.dir, page).Some?
      modifies paging.cpu`tlb
      ensures Valid() && f == Walk(paging.cpu.mem, paging.dir, page).value
    {
      var va := page * 0x1000;
      assert va / 0x1000 == page;
      PhysicalIsTranslation(paging.cpu.mem, paging.dir, page);
      var physical := paging.GetPhysical(va);
      f := physical / 0x1000;
    }

    /** The loop of `kfree_large`, and of `thread_destroy`: n pages are taken down. */
    method ReleasePages(b: nat, n: nat, ghost end: nat, ghost frames: seq<nat>)
      requires Valid() && n == |frames| && Remaining(Snapshot(), b, end, frames, 0)
      modifies this`view, paging.cpu`mem, paging.cpu`tlb, paging.pmm, paging.pmm.bitmap
      ensures Valid() && Remaining(Snapshot(), b, end, frames, n) && Kept(old(Snapshot()), Snapshot(), {})
      ensures Snapshot().used == old(Snapshot()).used - ToSet(frames)
      ensures view == old(view).(owner := old(view).owner - ToSet(frames))
      ensures paging.dir < FRAME_COUNT && Snapshot().mem[paging.dir] == old(Snapshot()).mem[paging.dir]
    {
      hide Untouched, Kept, OwnersOk, SlabsOk, SlicesOk;
      ghost var w := Snapshot();
      KeptRefl(w);
      var i := 0;
      while i < n
        invariant i <= n && Valid() && Remaining(Snapshot(), b, end, frames, i) && Kept(w, Snapshot(), {})
        invariant Snapshot().used == w.used - ToSet(frames[..i])
        invariant view == w.v.(owner := w.v.owner - ToSet(frames[..i]))
        invariant paging.dir < FRAME_COUNT && Snapshot().mem[paging.dir] == w.mem[paging.dir]
      {
        ghost var w1 := Snapshot();
        ReleasePage(b + i, b, end, frames, i);
        KeptChain(w, w1, Snapshot());
        assert ToSet(frames[..i + 1]) == ToSet(frames[..i]) + {frames[i]};
        i := i + 1;
      }
      assert frames[..n] == frames;
    }

    /** `kfree_large`: the block's frames, and only they, are free again, and its pages unmapped. */
    method KfreeLarge(b: nat)
      requires Valid() && b in view.slices && b < LARGE_END
      modifies this`view, paging.cpu`mem, paging.cpu`tlb, paging.pmm, paging.pmm.bitmap
      ensures Valid() && Kept(old(Snapshot()), Snapshot(), {Run(b)})
      ensures view.slices == old(view).slices - {b}
      ensures Snapshot().used == old(Snapshot()).used - ToSet(old(view).slices[b].frames)
      ensures LiveBlocks(view) == LiveBlocks(old(view)) - {Run(b)}
      ensures Accounts(old(Snapshot()), Snapshot(), {}, ToSet(old(view).slices[b].frames), {})
      ensures paging.dir < FRAME_COUNT && Snapshot().mem[paging.dir] == old(Snapshot()).mem[paging.dir]
      ensures forall p | b <= p < b + |old(view).slices[b].frames| :: Walk(Snapshot().mem, paging.dir, p) == None
    {
      hide Untouched, Kept, OwnersOk, SlabsOk, SlicesOk, Accounts, LiveBlocks;
      ghost var w := Snapshot();
      ghost var frames := view.slices[b].frames;
      LargeTag(w, b);
      HeaderWord(b);
      var pages := paging.Read(b * 0x1000 + 4);
      assert pages == |frames|;
      LargeDropped(w, b, frames);
      view := SliceDropped(w, b).v;
      ghost var w1 := Snapshot();
      ReleasePages(b, pages, b + pages, frames);
      KeptThen(w, w1, Snapshot(), {Run(b)});
      ReleasedAccounts(w, Snapshot(), b);
      ReleasedLive(w, Snapshot(), b);
    }

    /** `kmalloc` */
    method Kmalloc(size: Word) returns (out: Outcome, ghost taken: set<nat>)
      requires Valid() && (size <= 2048 || RegionRight(nextLarge, size))
      modifies this`view, this`heads, this`nextLarge, paging.cpu`mem, paging.cpu`tlb, paging.pmm, paging.pmm.bitmap
      ensures Valid() && Given(old(Snapshot()), Snapshot(), size, out, taken)
      ensures CallStep(old(Snapshot()), Snapshot(), Alloc(size, out, taken))
      ensures size <= 2048 ==> AllocStep(old(Snapshot()), Snapshot(), BinOf(size), out)
      ensures size > 2048 ==> LargeOutcome(old(Snapshot()), size, out)
    {
      hide Kept, OwnersOk, SlabsOk, Accounts, LargeTook, LargeAdded, LiveBlocks;
      ghost var w := Snapshot();
      if size <= 2048 {
        out := SlabAlloc(BinOf(size));
        DirIs(w);
        taken := SlabTaken(w, BinOf(size));
        GivenSmall(w, Snapshot(), size, out);
      } else {
        ghost var frames;
        out, frames, taken := KmallocLarge(size);
        GivenLarge(w, Snapshot(), size, out, frames, taken);
      }
      AllocStepped(w, Snapshot(), size, out, taken);
    }

    /** `slab_free(slab->cache, ptr)`: the cache's address is read from the page's header. */
    method KfreeSmall(ptr: Word, ghost c: nat)
      requires Valid() && ptr % 4 == 0 && c < POOL && LiveObject(Snapshot(), c, ptr / 0x1000, ptr % 0x1000 / 4)
      modifies this`view, this`heads, paging.cpu`mem, paging.cpu`tlb, paging.pmm, paging.pmm.bitmap
      ensures Valid() && Gone(old(Snapshot()), Snapshot(), Object(c, ptr / 0x1000, ptr % 0x1000 / 4))
    {
      hide Kept, OwnersOk, SlabsOk;
      ghost var w := Snapshot();
      LivePage(w, c, ptr / 0x1000, ptr % 0x1000 / 4);
      CacheFound(w, c);
      HeaderWord(ptr / 0x1000);
      var address := paging.Read(ptr / 0x1000 * 0x1000 + 4);
      var cache := CacheIndex(caches, address);
      assert cache == c;
      SlabFree(cache, ptr);
      GoneSmall(w, Snapshot(), c, ptr / 0x1000, ptr % 0x1000 / 4);
    }

    /** `kfree` */
    method Kfree(ptr: Word)
      requires Valid() && (ptr == 0 || IsHeapPtr(Snapshot(), ptr))
      modifies this`view, this`heads, paging.cpu`mem, paging.cpu`tlb, paging.pmm, paging.pmm.bitmap
      ensures Valid()
      ensures ptr == 0 ==> Snapshot() == old(Snapshot())
      ensures ptr != 0 ==> Gone(old(Snapshot()), Snapshot(), BlockAt(old(Snapshot()), ptr))
      ensures CallStep(old(Snapshot()), Snapshot(), Free(ptr))
    {
      hide Kept, OwnersOk, SlabsOk, SlicesOk, Accounts, FreeStep, CallStep, LiveBlocks;
      ghost var w := Snapshot();
      if ptr == 0 {
        FreeStepped(w, w, 0);
        return;
      }
      ghost var x := BlockAt(Snapshot(), ptr);
      TagDecides(Snapshot(), x);
      var page := ptr / 0x1000;
      HeaderWord(page);
      var tag := paging.Read(page * 0x1000);
      if tag == LARGE_MAGIC {
        KfreeLarge(page);
      } else {
        KfreeSmall(ptr, x.cache);
      }
      FreeStepped(w, Snapshot(), ptr);
    }

    /** A program store into word k of a kmalloc block by its owner. */
    method StoreInBlock(ptr: Word, k: nat, v: Word)
      requires Valid() && IsHeapPtr(Snapshot(), ptr) && k < SizeWords(Snapshot(), BlockAt(Snapshot(), ptr))
      requires ptr + 4 * k < WORD_LIMIT
      modifies paging.cpu`mem, paging.cpu`tlb
      ensures Valid() && Kept(old(Snapshot()), Snapshot(), {BlockAt(old(Snapshot()), ptr)})
      ensures IsHeapPtr(Snapshot(), ptr) && BlockAt(Snapshot(), ptr) == BlockAt(old(Snapshot()), ptr)
      ensures Reads(Snapshot(), ptr + 4 * k, v)
      ensures CallStep(old(Snapshot()), Snapshot(), Store(ptr, k, v))
    {
      hide Kept, OwnersOk, SlabsOk, SlicesOk, Reads, CallStep;
      ghost var w := Snapshot();
      ghost var x := BlockAt(w, ptr);
      BlockTranslates(w, x, k);
      OwnerOfWord(w, x, k);
      StoredInv(w, x, k, v);
      paging.Write(ptr + 4 * k, v);
      StoredReads(w, x, k, v);
      StoreStepped(w, Snapshot(), ptr, k, v);
    }

    /** A program store by the thread with its stack at b to a word of its stack or structure. */
    method StoreOwn(a: Word, v: Word, ghost b: nat)
      requires Valid() && HasStack(Snapshot(), b) && OwnWord(Snapshot(), b, a)
      modifies paging.cpu`mem, paging.cpu`tlb
      ensures Valid() && Snapshot() == StoredAt(old(Snapshot()), a, v)
      ensures Kept(old(Snapshot()), Snapshot(), Own(old(Snapshot()), b))
      ensures CallStep(old(Snapshot()), Snapshot(), Write(b, a, v))
    {
      hide Kept, OwnersOk, SlabsOk, SlicesOk, CallStep, Owns;
      ghost var w := Snapshot();
      OwnFrame(w, b, a);
      OwnStored(w, b, a, v);
      paging.Write(a, v);
      WriteStepped(w, Snapshot(), b, a, v);
    }

    /** Allocating, freeing, and allocating the same size again. */
    method AllocFreeAlloc(size: Word) returns (first: Outcome, second: Outcome)
      requires Valid() && size <= 2048
      modifies this`view, this`heads, this`nextLarge, paging.cpu`mem, paging.cpu`tlb, paging.pmm, paging.pmm.bitmap
      ensures Valid()
      ensures first.Returned? && first.ptr != 0 ==> second == first
    {
      hide Kept, OwnersOk, SlabsOk, SlicesOk;
      ghost var w0 := Snapshot();
      ghost var taken;
      first, taken := Kmalloc(size);
      second := first;
      if first.Returned? && first.ptr != 0 {
        ghost var w1 := Snapshot();
        SmallBlock(w0, w1, size, first);
        Kfree(first.ptr);
        ghost var w2 := Snapshot();
        second, taken := Kmalloc(size);
        SameAgain(w0, w1, w2, Snapshot(), BinOf(size), first, second);
      }
    }

    /** `thread->mem = ...; thread->stack_pages = ...` */
    method NoteStack(f: nat, o: nat, base: Word, pages: Word)
      requires Valid() && LiveObject(Snapshot(), POOL, f, o) && f < FRAME_COUNT && o < 1024
                 && NoThread(Snapshot(), POOL, f, o)
      modifies paging.cpu`mem, paging.cpu`tlb
      ensures Valid() && o + 8 <= 1024
      ensures Snapshot() == WithFrame(old(Snapshot()), f, StackNoted(old(Snapshot()).mem[f], o, base, pages))
      ensures Kept(old(Snapshot()), Snapshot(), {Object(POOL, f, o)}) && LiveObject(Snapshot(), POOL, f, o)
      ensures forall p | 0 <= p < FRAME_COUNT ::
                Walk(paging.cpu.mem, paging.dir, p) == Walk(old(paging.cpu.mem), paging.dir, p)
    {
      hide Kept, BootOwned, TablesOwned, SlicesOk;
      ghost var w := Snapshot();
      LivePage(w, POOL, f, o);
      ThreadWritten(w, f, o, StackNoted(w.mem[f], o, base, pages));
      NoteWords(f, o, base, pages);
    }

    method NoteWords(f: nat, o: nat, base: Word, pages: Word)
      requires Writable(f) && o + 8 <= 1024
      modifies paging.cpu`mem, paging.cpu`tlb
      ensures Writable(f)
      ensures paging.cpu.mem == old(paging.cpu.mem)[f := StackNoted(old(paging.cpu.mem)[f], o, base, pages)]
    {
      StoreWord(f, o + 2, base);
      StoreWord(f, o + 7, pages);
    }

    /** `thread->esp = ...` to `thread->entry = entry`. */
    method FillThread(f: nat, o: nat, esp: Word, id: Word, entry: Word)
      requires Valid() && LiveObject(Snapshot(), POOL, f, o) && f < FRAME_COUNT && o < 1024
                 && NoThread(Snapshot(), POOL, f, o)
      modifies paging.cpu`mem, paging.cpu`tlb
      ensures Valid() && o + 8 <= 1024
      ensures Snapshot() == WithFrame(old(Snapshot()), f, ThreadFilled(old(Snapshot()).mem[f], o, esp, id, entry))
      ensures Kept(old(Snapshot()), Snapshot(), {Object(POOL, f, o)}) && LiveObject(Snapshot(), POOL, f, o)
      ensures forall p | 0 <= p < FRAME_COUNT ::
                Walk(paging.cpu.mem, paging.dir, p) == Walk(old(paging.cpu.mem), paging.dir, p)
    {
      hide Kept, BootOwned, TablesOwned, SlicesOk;
      ghost var w := Snapshot();
      LivePage(w, POOL, f, o);
      ThreadWritten(w, f, o, ThreadFilled(w.mem[f], o, esp, id, entry));
      FillWords(f, o, esp, id, entry);
    }

    method FillWords(f: nat, o: nat, esp: Word, id: Word, entry: Word)
      requires Writable(f) && o + 8 <= 1024
      modifies paging.cpu`mem, paging.cpu`tlb
      ensures Writable(f)
      ensures paging.cpu.mem == old(paging.cpu.mem)[f := ThreadFilled(old(paging.cpu.mem)[f], o, esp, id, entry)]
    {
      StoreWord(f, o + 1, esp);
      StoreWord(f, o, id);
      StoreWord(f, o + 3, 1);
      StoreWord(f, o + 4, 0);
      StoreWord(f, o + 5, entry);
    }

    /** A store into word k of a page whose frame is no paging structure. */
    method StoreAt(va: Word, v: Word, ghost page: nat, ghost k: nat, ghost f: nat)
      requires paging.Valid() && page < FRAME_COUNT && k < 1024 && va == page * 0x1000 + 4 * k && f < FRAME_COUNT
      requires Walk(paging.cpu.mem, paging.dir, page) == Some(f) && !IsTable(paging.cpu.mem, paging.dir, f)
      modifies paging.cpu`mem, paging.cpu`tlb
      ensures paging.Valid() && paging.cpu.mem == SetWord(old(paging.cpu.mem), f, k, v)
      ensures Walk(paging.cpu.mem, paging.dir, page) == Some(f) && !IsTable(paging.cpu.mem, paging.dir, f)
    {
      ghost var mem := paging.cpu.mem;
      ObjectWord(page, k);
      paging.Write(va, v);
      SameDirectory(mem, paging.cpu.mem, paging.dir, f);
    }

    /** The trampoline's address and the four zeros at the top of a new stack. */
    method FillStack(page: nat, trampoline: Word, ghost f: nat) returns (top: Word)
      requires Valid() && page + 1 < FRAME_COUNT && f < FRAME_COUNT && Spare(Snapshot(), f)
      requires Walk(paging.cpu.mem, paging.dir, page) == Some(f)
      modifies paging.cpu`mem, paging.cpu`tlb
      ensures Valid() && top == (page + 1) * 0x1000 - 20
      ensures Snapshot() == WithFrame(old(Snapshot()), f, StackTop(old(Snapshot()).mem[f], trampoline, 4))
      ensures Kept(old(Snapshot()), Snapshot(), {})
      ensures forall p | 0 <= p < FRAME_COUNT ::
                Walk(paging.cpu.mem, paging.dir, p) == Walk(old(paging.cpu.mem), paging.dir, p)
    {
      hide Kept, Untouched, SlabsOk, BootOwned, TablesOwned, SlicesOk;
      ghost var w := Snapshot();
      SpareIsNoTable(w, f);
      SpareWritten(w, f, StackTop(w.mem[f], trampoline, 4));
      top := (page + 1) * 0x1000 - 4;
      StoreAt(top, trampoline, page, 1023, f);
      var i := 0;
      while i < 4
        invariant i <= 4 && top == (page + 1) * 0x1000 - 4 - 4 * i
        invariant paging.Valid() && Walk(paging.cpu.mem, paging.dir, page) == Some(f)
                    && !IsTable(paging.cpu.mem, paging.dir, f)
        invariant paging.cpu.mem == w.mem[f := StackTop(w.mem[f], trampoline, i)]
      {
        top := top - 4;
        StoreAt(top, 0, page, 1022 - i, f);
        i := i + 1;
      }
    }

    /** The stores of `thread_create_sized`, once the stack pages are laid. */
    method PrepareThread(thread: Word, vbase: Word, pages: Word, entry: Word, trampoline: Word, ghost g: nat)
      requires Valid() && thread % 4 == 0 && vbase % 0x1000 == 0 && 0 < pages && vbase / 0x1000 + pages < STACK_END
      requires LiveObject(Snapshot(), POOL, thread / 0x1000, thread % 0x1000 / 4)
      requires NoThread(Snapshot(), POOL, thread / 0x1000, thread % 0x1000 / 4)
      requires g < FRAME_COUNT && Spare(Snapshot(), g)
      requires Walk(paging.cpu.mem, paging.dir, vbase / 0x1000 + pages - 1) == Some(g)
      modifies this`nextThreadId, paging.cpu`mem, paging.cpu`tlb
      ensures Valid() && thread % 0x1000 / 4 + 8 <= 1024 && nextThreadId == Wrap(old(nextThreadId) + 1)
      ensures Filling(old(Snapshot()), Snapshot(), thread / 0x1000, thread % 0x1000 / 4, g, vbase, pages, trampoline,
                      vbase + pages * 0x1000 - 20, old(nextThreadId), entry)
      ensures LiveObject(Snapshot(), POOL, thread / 0x1000, thread % 0x1000 / 4)
      ensures Kept(old(Snapshot()), Snapshot(), {Object(POOL, thread / 0x1000, thread % 0x1000 / 4)})
      ensures forall p | 0 <= p < FRAME_COUNT ::
                Walk(paging.cpu.mem, paging.dir, p) == Walk(old(paging.cpu.mem), paging.dir, p)
    {
      hide Kept, Untouched, SlabsOk, OwnersOk, SlicesOk, NoThread, StackNoted, StackTop, ThreadFilled, Filling;
      hide LiveObject, Walk;
      ghost var w := Snapshot();
      var f, o := thread / 0x1000, thread % 0x1000 / 4;
      NoteStack(f, o, vbase, pages);
      ghost var w1 := Snapshot();
      var esp := FillStack(vbase / 0x1000 + pages - 1, trampoline, g);
      ghost var w2 := Snapshot();
      KeptLive(w1, w2, POOL, f, o);
      NoThreadSame(w, w2, POOL, f, o);
      ghost var id := nextThreadId;
      FillThread(f, o, esp, nextThreadId, entry);
      nextThreadId := Wrap(nextThreadId + 1);
      FillingSteps(w, w1, w2, Snapshot(), f, o, g, vbase, pages, trampoline, esp, id, entry);
    }

    /** `thread_create_sized` once the stack pages are laid. */
    method FinishThread(thread: Word, vbase: Word, pages: Word, entry: Word, trampoline: Word, ghost w0: State,
                        ghost frames: seq<nat>)
      requires Valid() && thread % 4 == 0 && vbase % 0x1000 == 0 && |frames| == pages > 0
      requires LiveObject(Snapshot(), POOL, thread / 0x1000, thread % 0x1000 / 4)
      requires NoThread(Snapshot(), POOL, thread / 0x1000, thread % 0x1000 / 4)
      requires STACK_BASE <= vbase / 0x1000 && vbase / 0x1000 + pages + 1 <= Snapshot().nextStack
      requires Laid(w0, Snapshot(), vbase / 0x1000, vbase / 0x1000 + pages + 1, frames)
      modifies this`view, this`nextThreadId, paging.cpu`mem, paging.cpu`tlb
      ensures Valid() && nextThreadId == Wrap(old(nextThreadId) + 1)
      ensures Kept(old(Snapshot()), Snapshot(), {Object(POOL, thread / 0x1000, thread % 0x1000 / 4)})
      ensures vbase / 0x1000 !in old(view).slices
      ensures view.slices == old(view).slices[vbase / 0x1000 := Slice(frames, thread)]
      ensures LiveBlocks(view) == LiveBlocks(old(view)) + {Run(vbase / 0x1000)}
      ensures ThreadReady(Snapshot(), thread, vbase / 0x1000, pages, frames[pages - 1], entry, old(nextThreadId),
                          trampoline)
      ensures view.owner == Claimed(old(view).owner, frames, vbase / 0x1000) && Snapshot().used == old(Snapshot()).used
      ensures paging.dir < FRAME_COUNT && Snapshot().mem[paging.dir] == old(Snapshot()).mem[paging.dir]
    {
      hide Kept, Untouched, SlabsOk, OwnersOk, SlicesOk, NoThread, Filling, ThreadReady, Laid, LiveBlocks;
      ghost var w := Snapshot();
      ghost var b, g := vbase / 0x1000, frames[pages - 1];
      LastFrame(w0, w, b, b + pages + 1, frames);
      ThreadFits(w, thread);
      NotDirectory(w, thread / 0x1000, thread % 0x1000 / 4, g);
      ghost var id := nextThreadId;
      PrepareThread(thread, vbase, pages, entry, trampoline, g);
      FillingDir(w, Snapshot(), thread / 0x1000, thread % 0x1000 / 4, g, vbase, pages, trampoline,
                 vbase + pages * 0x1000 - 20, id, entry);
      FinishReady(w0, w, Snapshot(), thread, b, frames, entry, id, trampoline, g);
      view := SliceAdopted(Snapshot(), b, Slice(frames, thread)).v;
    }

    /** One turn of the loop of `thread_create_sized` when no frame is left: `pmm_alloc` fails, and
        what it returns is mapped. */
    method LayWithout(page: nat, ghost b: nat, ghost end: nat, ghost frames: seq<nat>)
      requires Valid() && b <= page < end && Overrun(Snapshot(), b, end, frames, page - b)
      modifies this`view, paging.cpu`mem, paging.cpu`tlb, paging.pmm, paging.pmm.bitmap
      ensures Valid() && Overrun(Snapshot(), b, end, frames, page + 1 - b)
      ensures Kept(old(Snapshot()), Snapshot(), {})
      ensures Snapshot() == old(Snapshot()).(mem := Snapshot().mem)
      ensures paging.dir < FRAME_COUNT && Snapshot().mem[paging.dir] == old(Snapshot()).mem[paging.dir]
    {
      hide Untouched, Kept, SlabsOk, SlicesOk, Mounted, MapStep, AllUsed;
      ghost var w := Snapshot();
      var frame := AllocFrame();
      assert frame == NO_FRAME;
      MapPage(page, frame);
      UntouchedVacant(w, Snapshot(), b, end);
      OverrunStep(w, Snapshot(), b, end, frames, page - b, page);
    }

    /** The rest of that loop. */
    method LayRest(b: nat, i: nat, pages: nat, ghost end: nat, ghost frames: seq<nat>)
      requires Valid() && i <= pages && b + pages <= end && Overrun(Snapshot(), b, end, frames, i)
      modifies this`view, paging.cpu`mem, paging.cpu`tlb, paging.pmm, paging.pmm.bitmap
      ensures Valid() && Overrun(Snapshot(), b, end, frames, pages) && Kept(old(Snapshot()), Snapshot(), {})
      ensures Snapshot() == old(Snapshot()).(mem := Snapshot().mem)
      ensures paging.dir < FRAME_COUNT && Snapshot().mem[paging.dir] == old(Snapshot()).mem[paging.dir]
    {
      hide Untouched, Kept, OwnersOk, SlabsOk, SlicesOk, Overrun;
      ghost var w := Snapshot();
      DirIs(w);
      KeptRefl(w);
      var j := i;
      while j < pages
        invariant i <= j <= pages && Valid() && Overrun(Snapshot(), b, end, frames, j) && Kept(w, Snapshot(), {})
        invariant Snapshot() == w.(mem := Snapshot().mem) && Snapshot().mem[paging.dir] == w.mem[paging.dir]
      {
        ghost var w1 := Snapshot();
        LayWithout(b + j, b, end, frames);
        KeptChain(w, w1, Snapshot());
        j := j + 1;
      }
    }

    /** The loop of `thread_create_sized`; full says whether there was a frame for every page. The
        snapshot laid is the one in which frames ran out, if they did. */
    method LayStackPages(vbase: Word, pages: nat, ghost w0: State)
      returns (full: bool, ghost frames: seq<nat>, ghost gone: nat, ghost laid: State)
      requires Valid() && vbase % 0x1000 == 0 && 0 < pages && vbase / 0x1000 + pages + 1 <= STACK_END
      requires Laid(w0, Snapshot(), vbase / 0x1000, vbase / 0x1000 + pages + 1, []) && Booked(w0, Snapshot(), [], 0)
      modifies this`view, paging.cpu`mem, paging.cpu`tlb, paging.pmm, paging.pmm.bitmap
      ensures Valid() && Kept(old(Snapshot()), Snapshot(), {}) && view.slices == old(view).slices
      ensures LiveBlocks(view) == LiveBlocks(old(view))
      ensures LaidOrStuck(w0, laid, vbase / 0x1000, vbase / 0x1000 + pages + 1, frames, gone)
      ensures Booked(w0, laid, frames, gone) && Inv(laid)
      ensures gone <= pages && (gone < pages ==> AllUsed(laid.used))
      ensures Snapshot() == laid.(mem := Snapshot().mem)
      ensures paging.dir < FRAME_COUNT && Snapshot().mem[paging.dir] == laid.mem[paging.dir]
      ensures StackLaid(w0, Snapshot(), vbase / 0x1000, pages, frames)
      ensures !full ==> |frames| < pages
      ensures full && |frames| < pages ==> Walk(paging.cpu.mem, paging.dir, vbase / 0x1000 + pages - 1) == None
    {
      hide Untouched, Kept, OwnersOk, SlabsOk, SlicesOk, Laid, Stuck, Booked, Overrun, StackLaid, AllUsed, LiveBlocks;
      ghost var w := Snapshot();
      ghost var b := vbase / 0x1000;
      var i;
      i, frames := LayPages(vbase, pages, w0, vbase / 0x1000 + pages + 1);
      gone, laid := i, Snapshot();
      DirIs(laid);
      FramesAtMost(w0, laid, b, b + pages + 1, frames, gone);
      if |frames| < pages {
        GoneOver(w0, laid, b, b + pages + 1, frames, gone);
        OverrunStart(w0, laid, b, b + pages + 1, frames, gone);
      }
      full := i == pages;
      if !full {
        LayRest(vbase / 0x1000, i, pages, b + pages + 1, frames);
        KeptChain(w, laid, Snapshot());
      }
      StackLaidIs(w0, laid, Snapshot(), b, pages, frames, gone);
    }

    /** `thread_create_sized` once the loop is over and frames did not suffice: the first store to the
        stack faults, or it goes to the topmost frame. */
    method TearThread(thread: Word, vbase: Word, pages: Word, entry: Word, trampoline: Word, ghost frames: seq<nat>)
      returns (out: Outcome)
      requires Valid() && thread % 4 == 0 && vbase % 0x1000 == 0 && STACK_BASE <= vbase / 0x1000 && |frames| < pages
      requires LiveObject(Snapshot(), POOL, thread / 0x1000, thread % 0x1000 / 4)
      requires NoThread(Snapshot(), POOL, thread / 0x1000, thread % 0x1000 / 4)
      requires Overrun(Snapshot(), vbase / 0x1000, vbase / 0x1000 + pages + 1, frames, pages)
      modifies this`nextThreadId, paging.cpu`mem, paging.cpu`tlb
      ensures Valid() && Kept(old(Snapshot()), Snapshot(), {Object(POOL, thread / 0x1000, thread % 0x1000 / 4)})
      ensures paging.dir < FRAME_COUNT && Snapshot().mem[paging.dir] == old(Snapshot()).mem[paging.dir]
      ensures Overrun(Snapshot(), vbase / 0x1000, vbase / 0x1000 + pages + 1, frames, pages)
      ensures out == if HasTable(old(Snapshot()).mem, paging.dir, (vbase / 0x1000 + pages - 1) / 1024)
                then Torn(thread) else PageFault
      ensures out == Torn(thread) ==>
                ThreadReady(Snapshot(), thread, vbase / 0x1000, pages, FRAME_COUNT - 1, entry, old(nextThreadId),
                            trampoline)
      ensures nextThreadId == if out.PageFault? then old(nextThreadId) else Wrap(old(nextThreadId) + 1)
    {
      hide Kept, Untouched, SlabsOk, OwnersOk, SlicesOk, NoThread, Filling, ThreadReady, Vacant, Mounted, AllUsed;
      ghost var w := Snapshot();
      ghost var b, f, o, id := vbase / 0x1000, thread / 0x1000, thread % 0x1000 / 4, nextThreadId;
      ThreadFits(w, thread);
      TopFrameSpare(w);
      NotDirectory(w, f, o, FRAME_COUNT - 1);
      assert Walk(w.mem, w.dir, b + pages - 1) == FailedWalk(w, b + pages - 1);
      if paging.cpu.Resolve(vbase / 0x1000 + pages - 1).None? {
        NoteStack(thread / 0x1000, thread % 0x1000 / 4, vbase, pages);
        out := PageFault;
      } else {
        PrepareThread(thread, vbase, pages, entry, trampoline, FRAME_COUNT - 1);
        FillingDir(w, Snapshot(), f, o, FRAME_COUNT - 1, vbase, pages, trampoline, vbase + pages * 0x1000 - 20, id,
                   entry);
        TornReady(w, Snapshot(), thread, b, pages, trampoline, id, entry);
        out := Torn(thread);
      }
      OverrunSame(w, Snapshot(), b, b + pages + 1, frames, pages);
    }

    /** `thread_create_sized` once the loop is over. */
    method EndThread(thread: Word, vbase: Word, pages: Word, full: bool, entry: Word, trampoline: Word,
                     ghost w0: State, ghost frames: seq<nat>)
      returns (out: Outcome)
      requires Valid() && thread % 4 == 0 && vbase % 0x1000 == 0 && 0 < pages && STACK_BASE <= vbase / 0x1000
      requires vbase / 0x1000 + pages + 1 == Snapshot().nextStack <= STACK_END
      requires LiveObject(Snapshot(), POOL, thread / 0x1000, thread % 0x1000 / 4)
      requires NoThread(Snapshot(), POOL, thread / 0x1000, thread % 0x1000 / 4)
      requires StackLaid(w0, Snapshot(), vbase / 0x1000, pages, frames)
      requires !full ==> |frames| < pages
      requires full && |frames| < pages ==> Walk(paging.cpu.mem, paging.dir, vbase / 0x1000 + pages - 1) == None
      modifies this`view, this`nextThreadId, paging.cpu`mem, paging.cpu`tlb
      ensures Valid() && Kept(old(Snapshot()), Snapshot(), {Object(POOL, thread / 0x1000, thread % 0x1000 / 4)})
      ensures w0.dir < FRAME_COUNT
      ensures out == if |frames| == pages then Returned(thread)
                     else if TopReached(w0, vbase / 0x1000, pages, |frames|) then Torn(thread)
                     else PageFault
      ensures paging.dir < FRAME_COUNT && Snapshot().mem[paging.dir] == old(Snapshot()).mem[paging.dir]
      ensures Snapshot().used == old(Snapshot()).used
      ensures view.owner ==
              if |frames| == pages then Claimed(old(view).owner, frames, vbase / 0x1000) else old(view).owner
      ensures LiveBlocks(view) == LiveBlocks(old(view)) + if |frames| == pages then {Run(vbase / 0x1000)} else {}
      ensures |frames| == pages ==>
                && vbase / 0x1000 !in old(view).slices
                && view.slices == old(view).slices[vbase / 0x1000 := Slice(frames, thread)]
                && ThreadReady(Snapshot(), thread, vbase / 0x1000, pages, frames[pages - 1], entry, old(nextThreadId),
                               trampoline)
      ensures |frames| != pages ==> Overrun(Snapshot(), vbase / 0x1000, vbase / 0x1000 + pages + 1, frames, pages)
      ensures out == Torn(thread) ==>
                ThreadReady(Snapshot(), thread, vbase / 0x1000, pages, FRAME_COUNT - 1, entry, old(nextThreadId),
                            trampoline)
      ensures nextThreadId == if out.PageFault? then old(nextThreadId) else Wrap(old(nextThreadId) + 1)
    {
      hide Kept, Untouched, SlabsOk, OwnersOk, SlicesOk, NoThread, Laid, TablesFor;
      hide ThreadReady, Overrun, LiveObject, LiveBlocks, TopReached, Claimed;
      TopPageWalk(w0, Snapshot(), vbase / 0x1000, pages, frames);
      TopTable(w0, Snapshot(), vbase / 0x1000, pages, frames);
      if full && paging.cpu.Resolve(vbase / 0x1000 + pages - 1).Some? {
        FinishThread(thread, vbase, pages, entry, trampoline, w0, frames);
        out := Returned(thread);
      } else {
        out := TearThread(thread, vbase, pages, entry, trampoline, frames);
      }
    }

    /** `thread_create_sized` from the reserved addresses on. */
    method LayThread(thread: Word, vbase: Word, pages: Word, entry: Word, trampoline: Word, ghost w0: State)
      returns (out: Outcome, ghost frames: seq<nat>, ghost taken: set<nat>)
      requires Valid() && Snapshot() == w0 && vbase % 0x1000 == 0 && 0 < pages
      requires STACK_BASE <= vbase / 0x1000 && vbase / 0x1000 + pages + 1 == w0.nextStack <= STACK_END
      requires Laid(w0, w0, vbase / 0x1000, w0.nextStack, []) && Booked(w0, w0, [], 0)
      requires thread % 4 == 0 && LiveObject(w0, POOL, thread / 0x1000, thread % 0x1000 / 4)
      requires NoThread(w0, POOL, thread / 0x1000, thread % 0x1000 / 4)
      modifies this`view, this`nextThreadId, paging.cpu`mem, paging.cpu`tlb, paging.pmm, paging.pmm.bitmap
      ensures Valid() && Kept(w0, Snapshot(), {Object(POOL, thread / 0x1000, thread % 0x1000 / 4)})
      ensures StackEnds(w0, vbase / 0x1000, pages, |frames|, thread, out)
      ensures LayTook(w0, Snapshot(), vbase / 0x1000, pages, out == Returned(thread), frames, taken)
      ensures LiveBlocks(view) == LiveBlocks(w0.v) + if out == Returned(thread) then {Run(vbase / 0x1000)} else {}
      ensures out == Returned(thread) ==>
                && |frames| == pages && vbase / 0x1000 !in w0.v.slices
                && view.slices == w0.v.slices[vbase / 0x1000 := Slice(frames, thread)]
                && ThreadReady(Snapshot(), thread, vbase / 0x1000, pages, frames[pages - 1], entry, old(nextThreadId),
                               trampoline)
      ensures out != Returned(thread) ==> Overrun(Snapshot(), vbase / 0x1000, w0.nextStack, frames, pages)
      ensures out == Torn(thread) ==>
                ThreadReady(Snapshot(), thread, vbase / 0x1000, pages, FRAME_COUNT - 1, entry, old(nextThreadId),
                            trampoline)
      ensures nextThreadId == if out.PageFault? then old(nextThreadId) else Wrap(old(nextThreadId) + 1)
    {
      hide Kept, Untouched, SlabsOk, OwnersOk, SlicesOk, NoThread, Laid, Stuck, LaidOrStuck;
      hide ThreadReady, Booked, Overrun, LayTook, Short, LiveObject, LiveBlocks, StackLaid, TopReached, Claimed;
      ghost var x := Object(POOL, thread / 0x1000, thread % 0x1000 / 4);
      var full;
      ghost var gone, laid;
      full, frames, gone, laid := LayStackPages(vbase, pages, w0);
      ghost var w2 := Snapshot();
      taken := Gained(w0, laid);
      KeptLive(w0, w2, POOL, x.frame, x.word);
      NoThreadSame(w0, w2, POOL, x.frame, x.word);
      out := EndThread(thread, vbase, pages, full, entry, trampoline, w0, frames);
      KeptAfter(w0, w2, Snapshot(), {x});
      LayEnds(w0, laid, Snapshot(), vbase / 0x1000, w0.nextStack, frames, gone, pages);
    }

    /** The cursor of the stack region moves past a stack and its guard page. */
    method ReserveStack(pages: Word) returns (vbase: Word)
      requires Valid() && Snapshot().nextStack + pages + 1 <= STACK_END
      modifies this`nextStack
      ensures Valid() && vbase % 0x1000 == 0 && vbase / 0x1000 == old(Snapshot()).nextStack >= STACK_BASE
      ensures Snapshot() == old(Snapshot()).(nextStack := old(Snapshot()).nextStack + pages + 1)
      ensures Kept(old(Snapshot()), Snapshot(), {})
      ensures Laid(Snapshot(), Snapshot(), vbase / 0x1000, vbase / 0x1000 + pages + 1, [])
      ensures Booked(Snapshot(), Snapshot(), [], 0)
    {
      hide Kept, SlabsOk, SlicesOk, OwnersOk, Laid, Booked, Vacant;
      ghost var w := Snapshot();
      CursorBounds(w);
      vbase := nextStack;
      StackAdvanced(w, pages);
      nextStack := Wrap(nextStack + Wrap(Wrap(pages + 1) * 0x1000));
      ghost var w1 := w.(nextStack := w.nextStack + pages + 1);
      assert Snapshot() == w1;
      DirIs(w1);
      LaidStart(w1, w.nextStack, w1.nextStack);
      BookedStart(w1);
    }

    /** The rest of `thread_create_sized`. */
    method LayStack(thread: Word, entry: Word, pages: Word, trampoline: Word)
      returns (out: Outcome, ghost frames: seq<nat>, ghost taken: set<nat>)
      requires Valid() && 0 < pages && Snapshot().nextStack + pages + 1 <= STACK_END
      requires thread % 4 == 0 && LiveObject(Snapshot(), POOL, thread / 0x1000, thread % 0x1000 / 4)
      requires NoThread(Snapshot(), POOL, thread / 0x1000, thread % 0x1000 / 4)
      modifies this`view, this`nextStack, this`nextThreadId
      modifies paging.cpu`mem, paging.cpu`tlb, paging.pmm, paging.pmm.bitmap
      ensures Valid() && Kept(old(Snapshot()), Snapshot(), {Object(POOL, thread / 0x1000, thread % 0x1000 / 4)})
      ensures Snapshot().nextStack == old(Snapshot()).nextStack + pages + 1
      ensures StackEnds(old(Snapshot()), old(Snapshot()).nextStack, pages, |frames|, thread, out)
      ensures LayTook(old(Snapshot()), Snapshot(), old(Snapshot()).nextStack, pages,
                      out == Returned(thread), frames, taken)
      ensures LiveBlocks(view) ==
              LiveBlocks(old(view)) + if out == Returned(thread) then {Run(old(Snapshot()).nextStack)} else {}
      ensures out == Returned(thread) ==>
                && StackMade(old(Snapshot()), Snapshot(), thread, pages, entry, old(nextThreadId), trampoline)
                && view.slices[old(Snapshot()).nextStack].frames == frames
      ensures out != Returned(thread) ==>
                Overrun(Snapshot(), old(Snapshot()).nextStack, Snapshot().nextStack, frames, pages)
      ensures out == Torn(thread) ==>
                ThreadReady(Snapshot(), thread, old(Snapshot()).nextStack, pages, FRAME_COUNT - 1, entry,
                            old(nextThreadId), trampoline)
      ensures nextThreadId == if out.PageFault? then old(nextThreadId) else Wrap(old(nextThreadId) + 1)
    {
      hide Kept, Untouched, SlabsOk, SlicesOk, NoThread, Laid, Stuck, LaidOrStuck, ThreadReady, LiveObject, TablesOwned;
      hide Booked, Overrun, LayTook, LiveBlocks;
      ghost var w := Snapshot();
      var vbase := ReserveStack(pages);
      ghost var w1 := Snapshot();
      NoThreadSame(w, w1, POOL, thread / 0x1000, thread % 0x1000 / 4);
      KeptLive(w, w1, POOL, thread / 0x1000, thread % 0x1000 / 4);
      out, frames, taken := LayThread(thread, vbase, pages, entry, trampoline, w1);
      KeptAfter(w, w1, Snapshot(), {Object(POOL, thread / 0x1000, thread % 0x1000 / 4)});
      LayTookFrom(w, w1, Snapshot(), w.nextStack, pages, out == Returned(thread), frames, taken);
    }

    /** `thread_create_sized`. The ghost results are what the pool gave and when, the frames of the
        stack pages, and the frames taken for them. */
    method ThreadCreateSized(entry: Word, pages: Word, trampoline: Word)
      returns (out: Outcome, ghost slot: Outcome, ghost mid: State, ghost frames: seq<nat>, ghost taken: set<nat>)
      requires Valid() && 0 < pages && Snapshot().nextStack + pages + 1 <= STACK_END
      modifies this`view, this`heads, this`nextStack, this`nextThreadId
      modifies paging.cpu`mem, paging.cpu`tlb, paging.pmm, paging.pmm.bitmap
      ensures Valid() && Kept(old(Snapshot()), Snapshot(), {})
      ensures Created(old(Snapshot()), mid, Snapshot(), pages, slot, out, frames, taken)
      ensures Succeeded(slot) ==> Snapshot().nextStack == old(Snapshot()).nextStack + pages + 1
      ensures Succeeded(slot) && !Succeeded(out) ==>
                Overrun(Snapshot(), old(Snapshot()).nextStack, Snapshot().nextStack, frames, pages)
      ensures Succeeded(out) ==>
                ThreadMade(old(Snapshot()), Snapshot(), out.ptr, pages, entry, old(nextThreadId), trampoline)
      ensures out.Torn? ==>
                ThreadReady(Snapshot(), out.ptr, old(Snapshot()).nextStack, pages, FRAME_COUNT - 1, entry,
                            old(nextThreadId), trampoline)
      ensures nextThreadId == if Succeeded(out) || out.Torn? then Wrap(old(nextThreadId) + 1) else old(nextThreadId)
      ensures Accounts(old(Snapshot()), Snapshot(), SlabTaken(old(Snapshot()), POOL) + taken, {},
                       if Succeeded(out) then {}
                       else if Succeeded(slot) then taken
                       else SlabTaken(old(Snapshot()), POOL))
      ensures CallStep(old(Snapshot()), Snapshot(),
                       Create(pages, out, slot, SlabTaken(old(Snapshot()), POOL) + taken,
                              if Succeeded(slot) then taken else SlabTaken(old(Snapshot()), POOL)))
    {
      hide Kept, SlabsOk, OwnersOk, SlicesOk, AllocStep, LayTook, Overrun, ThreadReady, Accounts, CallStep, SlabTaken;
      hide LiveBlocks, Short, TopReached;
      ghost var w := Snapshot();
      out := SlabAlloc(POOL);
      slot, mid, frames, taken := out, Snapshot(), [], {};
      if out.Returned? && out.ptr != 0 {
        ThreadObject(w, mid, out);
        out, frames, taken := LayStack(out.ptr, entry, pages, trampoline);
        ThreadKept(w, mid, Snapshot(), slot.ptr / 0x1000, slot.ptr % 0x1000 / 4);
        TookAccounted(mid, Snapshot(), w.nextStack, pages, Succeeded(out), frames, taken);
      } else {
        AllocAccounts(w, mid, POOL, slot);
      }
      CreateAccounts(w, mid, Snapshot(), slot, out, taken);
      CreateStepped(w, mid, Snapshot(), pages, out, slot, frames, taken, entry, old(nextThreadId), trampoline);
    }

    /** `thread_destroy`: the stack's frames and, with its page's last object, the page of the
        structure are free again, and nothing else. */
    method ThreadDestroy(thread: Word, ghost b: nat)
      requires Valid() && b in view.slices && b >= LARGE_END && view.slices[b].thread == thread
      modifies this`view, this`heads, paging.cpu`mem, paging.cpu`tlb, paging.pmm, paging.pmm.bitmap
      ensures Valid() && view.slices == old(view).slices - {b}
      ensures LiveObject(old(Snapshot()), POOL, thread / 0x1000, thread % 0x1000 / 4)
      ensures !LiveObject(Snapshot(), POOL, thread / 0x1000, thread % 0x1000 / 4)
      ensures Kept(old(Snapshot()), Snapshot(), {Run(b), Object(POOL, thread / 0x1000, thread % 0x1000 / 4)})
      ensures Snapshot().used == (old(Snapshot()).used - ToSet(old(view).slices[b].frames))
                                 - PageBack(old(Snapshot()), POOL, thread / 0x1000)
      ensures Accounts(old(Snapshot()), Snapshot(), {},
                       ToSet(old(view).slices[b].frames) + PageBack(old(Snapshot()), POOL, thread / 0x1000), {})
      ensures paging.dir < FRAME_COUNT && Snapshot().mem[paging.dir] == old(Snapshot()).mem[paging.dir]
      ensures CallStep(old(Snapshot()), Snapshot(), Destroy(b))
    {
      hide Kept, Untouched, SlabsOk, OwnersOk, SlicesOk, Accounts, FreeStep, CallStep, LiveBlocks;
      ghost var w := Snapshot();
      var f, o := thread / 0x1000, thread % 0x1000 / 4;
      ThreadFound(w, b);
      var base := LoadWord(f, o + 2);
      var pages := LoadWord(f, o + 7);
      assert base / 0x1000 == b;
      ReleaseStack(base / 0x1000, pages, thread);
      ghost var w1 := Snapshot();
      SlabFree(POOL, thread);
      FreedObject(w1, Snapshot(), POOL, f, o);
      FreeAccounts(w1, Snapshot(), POOL, f, o);
      FreeLive(w1, Snapshot(), POOL, f, o);
      AccountsLose(w, w1, Snapshot(), ToSet(w.v.slices[b].frames), PageBack(w1, POOL, f));
      KeptTrans(w, w1, Snapshot(), {Run(b)}, {Object(POOL, f, o)});
      assert {Run(b)} + {Object(POOL, f, o)} == {Run(b), Object(POOL, f, o)};
      DestroyStepped(w, Snapshot(), b, f, o);
    }

    /** The loop of `thread_destroy`. */
    method ReleaseStack(b: nat, pages: Word, ghost thread: Word)
      requires Valid() && b in view.slices && b >= LARGE_END && view.slices[b].thread == thread
      requires pages == |view.slices[b].frames|
      modifies this`view, paging.cpu`mem, paging.cpu`tlb, paging.pmm, paging.pmm.bitmap
      ensures Valid() && view.slices == old(view).slices - {b} && view.free == old(view).free
      ensures Kept(old(Snapshot()), Snapshot(), {Run(b)})
      ensures Snapshot().used == old(Snapshot()).used - ToSet(old(view).slices[b].frames)
      ensures Accounts(old(Snapshot()), Snapshot(), {}, ToSet(old(view).slices[b].frames), {})
      ensures Tables(Snapshot()) == Tables(old(Snapshot())) && LiveBlocks(view) == LiveBlocks(old(view)) - {Run(b)}
      ensures paging.dir < FRAME_COUNT && Snapshot().mem[paging.dir] == old(Snapshot()).mem[paging.dir]
      ensures LiveObject(Snapshot(), POOL, thread / 0x1000, thread % 0x1000 / 4) && thread / 0x1000 < FRAME_COUNT
      ensures NoThread(Snapshot(), POOL, thread / 0x1000, thread % 0x1000 / 4)
    {
      hide Kept, Untouched, SlabsOk, OwnersOk, SlicesOk, NoThread, Remaining, Accounts, Tables, LiveBlocks;
      ghost var w := Snapshot();
      ghost var frames := view.slices[b].frames;
      StackDropped(w, b, frames);
      view := SliceDropped(w, b).v;
      ghost var w1 := Snapshot();
      ReleasePages(b, pages, b + pages + 1, frames);
      DroppedThread(w, w1, Snapshot(), b);
      KeptThen(w, w1, Snapshot(), {Run(b)});
      ReleasedAccounts(w, Snapshot(), b);
      ReleasedLive(w, Snapshot(), b);
    }
  }
}
