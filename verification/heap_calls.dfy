/** kmalloc and kfree as seen by their callers. */
module HeapCalls {
  import opened Words
  import opened Hardware
  import opened Pmm
  import opened SlabPage
  import opened World
  import opened Transitions
  import opened Slices
  import opened HeapSteps
  import opened LargeSteps
  import opened Isolation

  /** The bin of a small request: the smallest whose objects are large enough. */
  function BinOf(size: Word): (c: nat)
    requires size <= 2048
    ensures c < POOL && size <= 4 * ObjectWords(c)
    ensures c > 0 ==> size > 4 * ObjectWords(c - 1)
  {
    if size <= 16 then 0
    else if size <= 32 then 1
    else if size <= 64 then 2
    else if size <= 128 then 3
    else if size <= 256 then 4
    else if size <= 512 then 5
    else if size <= 1024 then 6
    else 7
  }

  /** More bytes than any block for the request has: twice the request for an object, unless it is one of
      the smallest, and a page beyond it for a large block. */
  function TooLarge(size: Word): nat {
    if size <= 16 then 17 else if size <= 2048 then 2 * size else size + 0x1000
  }

  /** The pointer is to a block that was not live before, of at least the requested size and not
      too large for it. */
  ghost predicate NewBlock(w: State, w': State, size: Word, ptr: Word) {
    && IsHeapPtr(w', ptr) && !LiveBlock(w, BlockAt(w', ptr))
    && size <= 4 * SizeWords(w', BlockAt(w', ptr)) < TooLarge(size)
  }

  /** Exactly when a request is met: an object or a page for it can be had, or the region has room and
      frames suffice for the pages and their tables. */
  ghost predicate RequestServed(w: State, size: Word)
    requires Inv(w)
  {
    if size <= 2048 then PageServes(w, BinOf(size))
    else w.nextLarge + TruePages(size) <= LARGE_END && !Short(w, w.nextLarge, TruePages(size))
  }

  /** Exactly when a request takes frames in vain. */
  ghost predicate RequestStrands(w: State, size: Word)
    requires Inv(w)
  {
    if size <= 2048 then PageStrands(w, BinOf(size))
    else
      && w.nextLarge + TruePages(size) <= LARGE_END && Short(w, w.nextLarge, TruePages(size))
      && !AllUsed(w.used)
  }

  /** What a caller gets: all other blocks as they were and, unless the call fails, one new block. The
      frames taken are those of that block, page tables apart. Whether it fails, and whether a failing
      call leaves frames to nobody, is known before. */
  ghost predicate Given(w: State, w': State, size: Word, out: Outcome, taken: set<nat>)
    requires Inv(w)
  {
    && Kept(w, w', {})
    && (Succeeded(out) <==> RequestServed(w, size))
    && (!Succeeded(out) ==> (taken != {} <==> RequestStrands(w, size)))
    && Accounts(w, w', taken, {}, if Succeeded(out) then {} else taken)
    && (if Succeeded(out) then
          && NewBlock(w, w', size, out.ptr)
          && LiveBlocks(w'.v) == LiveBlocks(w.v) + {BlockAt(w', out.ptr)}
          && taken == FramesOf(w'.v, BlockAt(w', out.ptr)) - w.used
        else LiveBlocks(w'.v) == LiveBlocks(w.v))
  }

  lemma GivenSmall(w: State, w': State, size: Word, out: Outcome)
    requires Inv(w) && Inv(w') && size <= 2048
    requires AllocStep(w, w', BinOf(size), out) && (out.Returned? ==> Kept(w, w', {})) && !out.Torn?
    ensures |w.v.slabs| == CACHES && Given(w, w', size, out, SlabTaken(w, BinOf(size)))
  {
    hide Kept, SlabsOk, SlicesOk, OwnersOk, AllocStep, Accounts, SlabTaken, NewBlock, LiveBlocks, BlockAt;
    hide PageServes, PageStrands;
    DirIs(w);
    DirIs(w');
    AllocServes(w, w', BinOf(size), out);
    AllocAccounts(w, w', BinOf(size), out);
    AllocLive(w, w', BinOf(size), out);
    if out == Returned(0) {
      RefusedTook(w, w', BinOf(size), out);
    } else if out.Returned? {
      NewSmall(w, w', size, out);
      SmallBlock(w, w', size, out);
      SlabTakenIs(w, w', BinOf(size), out);
    }
  }

  lemma DirIs(w: State)
    requires Inv(w)
    ensures w.dir < FRAME_COUNT && |w.v.slabs| == CACHES
  {}

  lemma NewSmall(w: State, w': State, size: Word, out: Outcome)
    requires Inv(w) && Inv(w') && size <= 2048 && Succeeded(out)
    requires AllocStep(w, w', BinOf(size), out) && Kept(w, w', {})
    ensures NewBlock(w, w', size, out.ptr)
  {
    hide Kept, TablesOwned, BootOwned, SlabsOk, SlicesOk, AllocStep;
    var x := Object(BinOf(size), out.ptr / 0x1000, out.ptr % 0x1000 / 4);
    AllocGives(w, w', BinOf(size), out);
    PtrOfWord(out.ptr);
    PtrFindsBlock(w', x);
  }

  lemma PtrOfWord(ptr: Word)
    requires ptr % 4 == 0
    ensures ptr == ptr / 0x1000 * 0x1000 + 4 * (ptr % 0x1000 / 4)
  {}

  lemma GivenLarge(w: State, w': State, size: Word, out: Outcome, frames: seq<nat>, taken: set<nat>)
    requires Inv(w) && Inv(w') && size > 2048 && Kept(w, w', {})
    requires Succeeded(out) ==>
               out.ptr == w.nextLarge * 0x1000 + 8 && LargeAdded(w, w', frames, TruePages(size))
    requires LargeTook(w, w', size, out, frames, taken) && LargeOutcome(w, size, out)
    requires LiveBlocks(w'.v) == LiveBlocks(w.v) + if Succeeded(out) then {Run(w.nextLarge)} else {}
    ensures Given(w, w', size, out, taken)
  {
    hide Kept, OwnersOk, SlabsOk, SlicesOk, Accounts, LargeTook, LargeAdded, NewBlock, LiveBlocks, BlockAt;
    hide RequestServed, RequestStrands, LargeOutcome;
    TookAccounts(w, w', size, out, frames, taken);
    LargeStrands(w, w', size, out, frames, taken);
    if Succeeded(out) {
      NewLarge(w, w', size, frames);
      LargeTaken(w, w', size, out, frames, taken);
    }
  }

  /** A large request that fails takes frames exactly if the region has room and some frame was free. */
  lemma LargeStrands(w: State, w': State, size: Word, out: Outcome, frames: seq<nat>, taken: set<nat>)
    requires Inv(w) && size > 2048 && LargeTook(w, w', size, out, frames, taken) && LargeOutcome(w, size, out)
    ensures Succeeded(out) <==> RequestServed(w, size)
    ensures !Succeeded(out) ==> (taken != {} <==> RequestStrands(w, size))
  {
    hide Accounts, Short, Reached, TablesFor, OwnersOk, SlabsOk;
  }

  lemma LargeTaken(w: State, w': State, size: Word, out: Outcome, frames: seq<nat>, taken: set<nat>)
    requires Inv(w) && Succeeded(out) && LargeAdded(w, w', frames, TruePages(size))
    requires LargeTook(w, w', size, out, frames, taken) && LargeOutcome(w, size, out)
    ensures taken == FramesOf(w'.v, Run(w.nextLarge)) - w.used
  {
    assert taken !! w.used && taken == ToSet(frames);
  }

  lemma NewLarge(w: State, w': State, size: Word, frames: seq<nat>)
    requires Inv(w) && Inv(w') && size > 2048 && LargeAdded(w, w', frames, TruePages(size))
    ensures w.nextLarge * 0x1000 + 8 < WORD_LIMIT && NewBlock(w, w', size, w.nextLarge * 0x1000 + 8)
    ensures BlockAt(w', w.nextLarge * 0x1000 + 8) == Run(w.nextLarge)
  {
    hide OwnersOk, SlabsOk;
    var b := w.nextLarge;
    SlicePlaced(w', b);
    PtrFindsBlock(w', Run(b));
  }

  lemma TookAccounts(w: State, w': State, size: Word, out: Outcome, frames: seq<nat>, taken: set<nat>)
    requires Inv(w) && LargeTook(w, w', size, out, frames, taken)
    ensures Accounts(w, w', taken, {}, if Succeeded(out) then {} else taken)
  {
    if w.nextLarge + TruePages(size) > LARGE_END {
      AccountsSame(w, w');
    }
  }

  /** What a caller of kfree may rely on: the block is gone, all others are as they were; a large
      block's frames, or the page of a slab's last object, are free again, and no others. */
  ghost predicate Gone(w: State, w': State, x: Block)
    requires Inv(w) && LiveBlock(w, x) && FromHeap(x)
  {
    && !LiveBlock(w', x) && LiveBlocks(w'.v) == LiveBlocks(w.v) - {x} && Kept(w, w', {x})
    && w'.dir == w.dir && w'.mem[w.dir] == w.mem[w.dir]
    && (match x
        case Object(c, f, o) =>
          f < FRAME_COUNT && o < 1024 && FreeStep(w, w', c, f, o) && Accounts(w, w', {}, PageBack(w, c, f), {})
        case Run(b) =>
          w'.used == w.used - ToSet(w.v.slices[b].frames) && Accounts(w, w', {}, ToSet(w.v.slices[b].frames), {}))
  }

  lemma GoneSmall(w: State, w': State, c: nat, f: nat, o: nat)
    requires Inv(w) && Inv(w') && LiveObject(w, c, f, o) && c < POOL && f < FRAME_COUNT && o < 1024
    requires FreeStep(w, w', c, f, o) && Kept(w, w', {Object(c, f, o)})
    ensures Gone(w, w', Object(c, f, o))
  {
    FreeAccounts(w, w', c, f, o);
    FreeLive(w, w', c, f, o);
    hide Accounts, LiveBlocks;
    if |w.v.free[f]| + 1 < Capacity(ObjectWords(c)) {
      assert w'.v.free[f][0] == o;
    }
  }

  /** The cache at an address. */
  function CacheIndex(caches: seq<Word>, a: Word): (c: nat)
    requires a in caches
    ensures c < |caches| && caches[c] == a
  {
    if caches[0] == a then 0 else 1 + CacheIndex(caches[1..], a)
  }

  lemma CacheFound(w: State, c: nat)
    requires SlabsOk(w) && c < CACHES
    ensures w.caches[c] in w.caches && CacheIndex(w.caches, w.caches[c]) == c
  {}

  /** The block that a small request was given. */
  lemma SmallBlock(w: State, w': State, size: Word, out: Outcome)
    requires Inv(w) && Inv(w') && size <= 2048 && out.Returned? && out.ptr != 0
    requires AllocStep(w, w', BinOf(size), out) && Kept(w, w', {})
    ensures BlockAt(w', out.ptr) == Object(BinOf(size), out.ptr / 0x1000, out.ptr % 0x1000 / 4)
    ensures out.ptr / 0x1000 < FRAME_COUNT && LiveBlock(w', BlockAt(w', out.ptr))
  {
    AllocGives(w, w', BinOf(size), out);
    PtrOfWord(out.ptr);
    PtrFindsBlock(w', Object(BinOf(size), out.ptr / 0x1000, out.ptr % 0x1000 / 4));
  }

  /** The header of a large block, read through its first page. */
  lemma LargeTag(w: State, b: nat)
    requires Inv(w) && b in w.v.slices && b < LARGE_END
    ensures LARGE_BASE <= b && Walk(w.mem, w.dir, b).Some?
    ensures w.mem[Walk(w.mem, w.dir, b).value][1] == |w.v.slices[b].frames|
  {
    SlicePlaced(w, b);
    assert (b * 0x1000 + 8) / 0x1000 == b;
    TagDecides(w, Run(b));
  }

  /** A large block taken apart, before its pages are. */
  lemma LargeDropped(w: State, b: nat, frames: seq<nat>)
    requires Inv(w) && b in w.v.slices && b < LARGE_END && frames == w.v.slices[b].frames
    ensures Inv(SliceDropped(w, b)) && Kept(w, SliceDropped(w, b), {Run(b)})
    ensures Remaining(SliceDropped(w, b), b, b + |frames|, frames, 0)
  {
    hide Kept, OwnersOk, SlabsOk;
    SlicePlaced(w, b);
    SliceDroppedInv(w, b);
    SliceDroppedMounted(w, b);
    RemainingStart(SliceDropped(w, b), b, b + |frames|, frames);
  }

  /** The frames of a run taken apart and released: those of the run, no others. */
  lemma ReleasedAccounts(w: State, w': State, b: nat)
    requires OwnersOk(w) && SlicesOk(w) && b in w.v.slices
    requires w'.used == w.used - ToSet(w.v.slices[b].frames)
    requires w'.v.owner == SliceDropped(w, b).v.owner - ToSet(w.v.slices[b].frames)
    ensures Accounts(w, w', {}, ToSet(w.v.slices[b].frames), {}) && Tables(w') == Tables(w)
  {
    SliceFrames(w, b);
    var frames := w.v.slices[b].frames;
    assert forall f | f in w.v.owner :: w.v.owner[f] == Page(b) <==> f in frames;
    assert ToSet(frames) <= w.v.owner.Keys;
    hide OwnersOk, SlicesOk;
    OwnersAreUsed(w);
    DroppedSets(w, w', b, frames);
    AccountsLost(w, w', ToSet(frames));
  }

  lemma ReleasedLive(w: State, w': State, b: nat)
    requires SlicesOk(w) && b in w.v.slices
    requires w'.v == SliceDropped(w, b).v.(owner := SliceDropped(w, b).v.owner - ToSet(w.v.slices[b].frames))
    ensures LiveBlocks(w'.v) == LiveBlocks(w.v) - {Run(b)}
  {
    SliceFrames(w, b);
    RunOwners(w, w', b);
    LiveBlocksAre(w);
    LiveBlocksAre(w');
    hide LiveBlocks, SlicesOk, LiveBlock;
    forall x ensures LiveBlock(w', x) <==> LiveBlock(w, x) && x != Run(b) {
      ReleasedLiveAt(w, w', b, x);
    }
  }

  lemma RunOwners(w: State, w': State, b: nat)
    requires b in w.v.slices && forall f | f in w.v.slices[b].frames :: Owns(w, f, Page(b))
    requires w'.v.owner == Disowned(w.v.owner, b) - ToSet(w.v.slices[b].frames)
    ensures forall f | f in w.v.owner && w.v.owner[f].Slab? :: Owns(w', f, w.v.owner[f])
    ensures forall f | f in w'.v.owner && w'.v.owner[f].Slab? :: Owns(w, f, w'.v.owner[f])
  {}

  lemma ReleasedLiveAt(w: State, w': State, b: nat, x: Block)
    requires w'.v.free == w.v.free && w'.v.slices == w.v.slices - {b}
    requires forall f | f in w.v.owner && w.v.owner[f].Slab? :: Owns(w', f, w.v.owner[f])
    requires forall f | f in w'.v.owner && w'.v.owner[f].Slab? :: Owns(w, f, w'.v.owner[f])
    ensures LiveBlock(w', x) <==> LiveBlock(w, x) && x != Run(b)
  {}

  lemma DroppedSets(w: State, w': State, b: nat, frames: seq<nat>)
    requires forall f | f in w.v.owner :: w.v.owner[f] == Page(b) <==> f in frames
    requires ToSet(frames) <= w.v.owner.Keys && w'.v.owner == Disowned(w.v.owner, b) - ToSet(frames)
    ensures Tables(w') == Tables(w) && Orphans(w') == Orphans(w)
    ensures Tables(w) !! ToSet(frames) && Tables(w) <= w.v.owner.Keys
  {}
}
