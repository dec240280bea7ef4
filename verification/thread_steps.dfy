/** Thread structures and stacks: what creating and destroying a thread does to a snapshot. */
module ThreadSteps {
  import opened Words
  import opened Hardware
  import opened Pmm
  import opened Paging
  import opened SlabPage
  import opened World
  import opened Transitions
  import opened Slices
  import opened HeapSteps
  import opened LargeSteps

  /** `thread->mem` and `thread->stack_pages`. */
  function StackNoted(page: Frame, o: nat, base: Word, pages: Word): Frame
    requires o + 8 <= 1024
  {
    page[o + 2 := base][o + 7 := pages]
  }

  /** The fields set last: `esp`, `id`, `state`, `next` and `entry`. */
  function ThreadFilled(page: Frame, o: nat, esp: Word, id: Word, entry: Word): Frame
    requires o + 8 <= 1024
  {
    page[o + 1 := esp][o := id][o + 3 := 1][o + 4 := 0][o + 5 := entry]
  }

  /** The top page of a new stack after i of the four register slots: the trampoline's address in
      the last word, zeros below it. */
  function StackTop(page: Frame, trampoline: Word, i: nat): (r: Frame)
    requires i <= 4
  {
    if i == 0 then page[1023 := trampoline] else StackTop(page, trampoline, i - 1)[1023 - i := 0]
  }

  /** A page in which one live object has new contents. */
  lemma RewrittenPage(page: Frame, page': Frame, f: nat, cache: Word, s: nat, free: seq<nat>, o: nat)
    requires PageOk(page, f, cache, s, free) && IsObject(s, o) && o !in free
    requires forall k | 0 <= k < 1024 && !(o <= k < o + s) :: page'[k] == page[k]
    ensures PageOk(page', f, cache, s, free)
  {
    forall i | 0 <= i < |free| ensures LinkedAt(page', f, free, i) {
      assert LinkedAt(page, f, free, i) && IsObject(s, free[i]);
      if free[i] < o {
        ObjectsDisjoint(s, free[i], o);
      } else {
        ObjectsDisjoint(s, o, free[i]);
      }
    }
  }

  lemma RewrittenChange(w: State, f: nat, o: nat, page': Frame)
    requires SlabsOk(w) && LiveObject(w, POOL, f, o) && f < FRAME_COUNT
    requires forall k | 0 <= k < 1024 && !(o <= k < o + 8) :: page'[k] == w.mem[f][k]
    ensures ChangeOk(w, POOL, f, page', w.v.free[f], o)
  {
    assert SlabOk(w, f, POOL);
    RewrittenPage(w.mem[f], page', f, w.caches[POOL], 8, w.v.free[f], o);
    forall o': nat, k: nat | IsObject(8, o') && o' !in w.v.free[f] && o' != o && o' <= k < o' + 8
      ensures page'[k] == w.mem[f][k]
    {
      if o' < o {
        ObjectsDisjoint(8, o', o);
      } else {
        ObjectsDisjoint(8, o, o');
      }
    }
  }

  /** New contents for a thread structure that has no stack yet. */
  lemma ThreadWritten(w: State, f: nat, o: nat, page': Frame)
    requires Inv(w) && LiveObject(w, POOL, f, o) && f < FRAME_COUNT && o < 1024 && NoThread(w, POOL, f, o)
    requires forall k | 0 <= k < 1024 && !(o <= k < o + 8) :: page'[k] == w.mem[f][k]
    ensures Inv(WithFrame(w, f, page')) && Kept(w, WithFrame(w, f, page'), {Object(POOL, f, o)})
    ensures LiveObject(WithFrame(w, f, page'), POOL, f, o)
    ensures forall p | 0 <= p < FRAME_COUNT :: Walk(w.mem[f := page'], w.dir, p) == Walk(w.mem, w.dir, p)
  {
    RewrittenChange(w, f, o, page');
    SlabChangedInv(w, POOL, f, page', w.v.free[f], o);
    assert SlabChanged(w, f, page', w.v.free[f]) == WithFrame(w, f, page');
    SteadyOwners(w, WithFrame(w, f, page'));
  }

  /** An allocation moves no cursor and touches no slice. */
  lemma AllocKeepsSlices(w: State, w': State, c: nat, out: Outcome)
    requires Inv(w) && c < CACHES && w'.dir < FRAME_COUNT && AllocStep(w, w', c, out) && out.Returned?
    ensures w'.v.slices == w.v.slices && w'.nextLarge == w.nextLarge && w'.nextStack == w.nextStack
  {}

  lemma NoThreadSame(w: State, w': State, c: nat, f: nat, o: nat)
    requires f < FRAME_COUNT && o < 1024 && NoThread(w, c, f, o) && w'.v.slices == w.v.slices
    ensures NoThread(w', c, f, o)
  {}

  lemma KeptLive(w: State, w': State, c: nat, f: nat, o: nat)
    requires Kept(w, w', {}) && LiveObject(w, c, f, o)
    ensures LiveObject(w', c, f, o)
  {
    assert LiveBlock(w, Object(c, f, o));
  }

  /** The run of n pages laid at b, with an unmapped page above it, becomes the stack of the thread
      whose structure records it. */
  lemma StackAdopt(w0: State, w: State, w': State, b: nat, n: nat, frames: seq<nat>, thread: Word)
    requires Laid(w0, w, b, b + n + 1, frames) && 0 < n == |frames| && STACK_BASE <= b
    requires w' == w.(mem := w'.mem) && Inv(w') && b + n + 1 <= w.nextStack <= STACK_END
    requires forall p | 0 <= p < FRAME_COUNT :: Walk(w'.mem, w.dir, p) == Walk(w.mem, w.dir, p)
    requires ThreadOk(w', b, n, thread)
    ensures b !in w.v.slices
    ensures Inv(SliceAdopted(w', b, Slice(frames, thread))) && Kept(w', SliceAdopted(w', b, Slice(frames, thread)), {})
    ensures LiveBlocks(SliceAdopted(w', b, Slice(frames, thread)).v) == LiveBlocks(w.v) + {Run(b)}
  {
    hide LiveBlocks;
    var s := Slice(frames, thread);
    assert Vacant(w', b, b + n + 1) by {
      forall p | b <= p < b + n + 1 ensures !Watched(w', p) {
        assert !Watched(w, p);
      }
    }
    assert Mounted(w', b, frames) by {
      forall i | 0 <= i < n ensures Owns(w', frames[i], Orphan) && Walk(w'.mem, w.dir, b + i) == Some(frames[i]) {
        assert Owns(w, frames[i], Orphan);
      }
    }
    assert b in w.v.slices ==> Watched(w, b) by {
      if b in w.v.slices {
        SlicePlaced(w', b);
      }
    }
    SliceAdoptedInv(w', b, s);
    SliceAdoptedLive(w', b, s);
  }

  /** The thread structure's words. */
  ghost predicate ThreadWords(page: Frame, o: nat, id: Word, esp: Word, base: Word, entry: Word, pages: Word) {
    && o + 8 <= 1024
    && page[o] == id && page[o + 1] == esp && page[o + 2] == base && page[o + 3] == 1 && page[o + 4] == 0
    && page[o + 5] == entry && page[o + 7] == pages
  }

  /** The five words that the first switch into the thread takes from its stack. */
  ghost predicate FirstWords(page: Frame, trampoline: Word) {
    page[1023] == trampoline && forall k | 1019 <= k < 1023 :: page[k] == 0
  }

  /** The thread's structure and its stack of n pages at b, whose top page is in frame g, are
      prepared for the first switch. */
  ghost predicate ThreadReady(w: State, thread: Word, b: nat, n: nat, g: nat, entry: Word, id: Word, trampoline: Word) {
    var f, o := thread / 0x1000, thread % 0x1000 / 4;
    && 0 < n && STACK_BASE <= b && b + n < STACK_END && f < FRAME_COUNT && g < FRAME_COUNT
    && LiveObject(w, POOL, f, o)
    && ThreadWords(w.mem[f], o, id, (b + n) * 0x1000 - 20, b * 0x1000, entry, n)
    && FirstWords(w.mem[g], trampoline)
  }

  /** The thread got its stack: n pages at the cursor, which moved past them and a guard page, and
      everything prepared for the first switch. */
  ghost predicate StackMade(w: State, w': State, thread: Word, n: Word, entry: Word, id: Word, trampoline: Word) {
    var b := w.nextStack;
    && w'.nextStack == b + n + 1 <= STACK_END
    && b !in w.v.slices && b in w'.v.slices && w'.v.slices == w.v.slices[b := w'.v.slices[b]]
    && |w'.v.slices[b].frames| == n > 0 && w'.v.slices[b].thread == thread
    && ThreadReady(w', thread, b, n, w'.v.slices[b].frames[n - 1], entry, id, trampoline)
  }

  /** A thread with its stack was created, in a structure that was free. */
  ghost predicate ThreadMade(w: State, w': State, ptr: Word, n: Word, entry: Word, id: Word, trampoline: Word) {
    StackMade(w, w', ptr, n, entry, id, trampoline) && !LiveObject(w, POOL, ptr / 0x1000, ptr % 0x1000 / 4)
  }

  /** All blocks there were before a thread was created are as they were. */
  lemma ThreadKept(w: State, w1: State, w': State, f: nat, o: nat)
    requires Kept(w, w1, {}) && Kept(w1, w', {Object(POOL, f, o)}) && !LiveObject(w, POOL, f, o)
    ensures Kept(w, w', {})
  {}

  /** The frame that the frame allocator's failure value names: the topmost of the address space. */
  lemma FailureMapsTopFrame()
    ensures Translation(MakeEntry(NO_FRAME, 3)) == Some(FRAME_COUNT - 1)
  {}

  /** Where the failure value ends up mapped at a page, when no frame is left for a table either. */
  ghost function FailedWalk(w: State, p: nat): (r: Option<nat>)
    requires w.dir < FRAME_COUNT && p < WINDOW
  {
    if HasTable(w.mem, w.dir, p / 1024) then Some(FRAME_COUNT - 1) else None
  }

  /** Frames have run out after the first |frames| pages of a stack at b, and the pages up to b + j
      got the failure value. */
  ghost predicate Overrun(w: State, b: nat, end: nat, frames: seq<nat>, j: nat) {
    && w.dir < FRAME_COUNT && LARGE_BASE <= b && |frames| <= j && b + j <= end <= STACK_END
    && Mounted(w, b, frames) && Vacant(w, b, end) && AllUsed(w.used)
    && (forall p | b + |frames| <= p < b + j :: Walk(w.mem, w.dir, p) == FailedWalk(w, p))
    && (forall p | b + j <= p < end :: Walk(w.mem, w.dir, p) == None)
  }

  lemma OverrunStart(w0: State, w: State, b: nat, end: nat, frames: seq<nat>, i: nat)
    requires LaidOrStuck(w0, w, b, end, frames, i) && AllUsed(w.used)
    ensures Overrun(w, b, end, frames, i)
  {
    if |frames| < i {
      var s := (b + i - 1) / 1024;
      assert !HasTable(w0.mem, w0.dir, s) && !SlotIn(b, i - 1, s);
      assert !HasTable(w.mem, w.dir, s);
    }
  }

  /** The failure value mapped at a page when all frames are used. */
  lemma FailureMapped(w: State, w': State, page: nat)
    requires OwnersOk(w) && AllUsed(w.used) && page < WINDOW && page != w.dir
    requires MapStep(w.mem, w.used, w'.mem, w'.used, w.dir, page, MakeEntry(NO_FRAME, 3))
    requires w' == AfterMap(w, w'.mem, w'.used, page)
    ensures w' == w.(mem := w'.mem) && w'.mem[w.dir] == w.mem[w.dir]
    ensures Walk(w'.mem, w.dir, page) ==
            if HasTable(w.mem, w.dir, page / 1024) then Some(FRAME_COUNT - 1) else Walk(w.mem, w.dir, page)
    ensures forall p | 0 <= p < WINDOW && p != page :: Walk(w'.mem, w.dir, p) == Walk(w.mem, w.dir, p)
  {
    hide TablesOwned, BootOwned, BootExactly, AllUsed;
    FailureMapsTopFrame();
    MapTranslates(w.mem, w.used, w'.mem, w'.used, w.dir, page, MakeEntry(NO_FRAME, 3));
    MapDirectory(w.mem, w.used, w'.mem, w'.used, w.dir, page, MakeEntry(NO_FRAME, 3));
    AfterNoMap(w, page);
  }

  lemma OverrunStep(w: State, w': State, b: nat, end: nat, frames: seq<nat>, j: nat, page: nat)
    requires Overrun(w, b, end, frames, j) && page == b + j < end && OwnersOk(w) && page != w.dir
    requires MapStep(w.mem, w.used, w'.mem, w'.used, w.dir, page, MakeEntry(NO_FRAME, 3))
    requires w' == AfterMap(w, w'.mem, w'.used, page) && Vacant(w', b, end)
    ensures w' == w.(mem := w'.mem) && w'.mem[w.dir] == w.mem[w.dir]
    ensures Overrun(w', b, end, frames, j + 1)
  {
    FailureMapped(w, w', page);
    hide MapStep, OwnersOk, AllUsed, Vacant;
    MountedSame(w, w', b, frames);
    SameFailures(w, w');
  }

  /** What destroying a thread whose stack lacks pages would free for each: the topmost frame, or frame
      0 when the page has no table; both are reserved at boot. */
  lemma TornStackFrees(w: State, b: nat, end: nat, frames: seq<nat>, j: nat, p: nat)
    requires Overrun(w, b, end, frames, j) && b + |frames| <= p < b + j && OwnersOk(w)
    ensures PhysicalOf(w.mem, w.dir, p) == if HasTable(w.mem, w.dir, p / 1024) then (FRAME_COUNT - 1) * 0x1000 else 0
    ensures Owns(w, FRAME_COUNT - 1, Boot) && Owns(w, 0, Boot)
  {
    assert Walk(w.mem, w.dir, p) == FailedWalk(w, p);
    if HasTable(w.mem, w.dir, p / 1024) {
      PhysicalIsTranslation(w.mem, w.dir, p);
    }
  }

  lemma SameFailures(w: State, w': State)
    requires w'.dir == w.dir < FRAME_COUNT && w'.mem[w.dir] == w.mem[w.dir]
    ensures forall p | 0 <= p < WINDOW :: FailedWalk(w', p) == FailedWalk(w, p)
  {}

  lemma MountedSame(w: State, w': State, b: nat, frames: seq<nat>)
    requires Mounted(w, b, frames) && w'.dir == w.dir && w'.v == w.v
    requires forall p | b <= p < b + |frames| :: Walk(w'.mem, w.dir, p) == Walk(w.mem, w.dir, p)
    ensures Mounted(w', b, frames)
  {
    forall i | 0 <= i < |frames| ensures Owns(w', frames[i], Orphan) && Walk(w'.mem, w.dir, b + i) == Some(frames[i]) {
      assert Owns(w, frames[i], Orphan);
    }
  }

  /** Stores that miss the paging structures leave the pages as they are. */
  lemma OverrunSame(w: State, w': State, b: nat, end: nat, frames: seq<nat>, j: nat)
    requires Overrun(w, b, end, frames, j) && w' == w.(mem := w'.mem) && w'.mem[w.dir] == w.mem[w.dir]
    requires forall p | 0 <= p < FRAME_COUNT :: Walk(w'.mem, w.dir, p) == Walk(w.mem, w.dir, p)
    ensures Overrun(w', b, end, frames, j)
  {
    hide AllUsed;
    MountedSame(w, w', b, frames);
    SameFailures(w, w');
    forall p | b <= p < end ensures !Watched(w', p) {
      assert !Watched(w, p);
    }
  }

  /** All n pages of a stack have been gone over: each has its frame, or frames ran out. */
  ghost predicate StackLaid(w0: State, w: State, b: nat, n: nat, frames: seq<nat>) {
    && |frames| <= n && TablesFor(w0, w, b, |frames|)
    && (if |frames| == n then Laid(w0, w, b, b + n + 1, frames) else Overrun(w, b, b + n + 1, frames, n))
  }

  lemma StackLaidIs(w0: State, laid: State, w: State, b: nat, n: nat, frames: seq<nat>, gone: nat)
    requires LaidOrStuck(w0, laid, b, b + n + 1, frames, gone) && gone <= n && 0 < n
    requires w == laid.(mem := w.mem) && w.mem[w.dir] == laid.mem[w.dir] && (gone == n ==> w == laid)
    requires |frames| < n ==> Overrun(w, b, b + n + 1, frames, n)
    ensures StackLaid(w0, w, b, n, frames)
    ensures gone == n && |frames| < n ==>
              w.dir < FRAME_COUNT && b + n <= WINDOW && Walk(w.mem, w.dir, b + n - 1) == None
    ensures gone < n ==> |frames| < n
  {
    GoneOver(w0, laid, b, b + n + 1, frames, gone);
    SameTablesFor(w0, laid, w, b, |frames|);
  }

  /** The slot of the stack's top page has a table once m of the n pages have been laid. */
  ghost predicate TopReached(w: State, b: nat, n: nat, m: nat)
    requires w.dir < FRAME_COUNT && 0 < n && b + n <= WINDOW
  {
    HasTable(w.mem, w.dir, (b + n - 1) / 1024) || SlotIn(b, m, (b + n - 1) / 1024)
  }

  /** The first store to the stack goes through its top page. */
  lemma TopPageWalk(w0: State, w: State, b: nat, n: nat, frames: seq<nat>)
    requires StackLaid(w0, w, b, n, frames) && 0 < n
    ensures w0.dir == w.dir < FRAME_COUNT && b + n + 1 <= STACK_END
    ensures Walk(w.mem, w.dir, b + n - 1) ==
            if |frames| == n then Some(frames[n - 1])
            else if TopReached(w0, b, n, |frames|) then Some(FRAME_COUNT - 1)
            else None
  {
    hide Vacant, AllUsed;
    if |frames| == n {
      assert Walk(w.mem, w.dir, b + (n - 1)) == Some(frames[n - 1]);
    }
  }

  /** What the slot of the top page decides when frames ran out. */
  lemma TopTable(w0: State, w: State, b: nat, n: nat, frames: seq<nat>)
    requires StackLaid(w0, w, b, n, frames) && 0 < n
    ensures w0.dir == w.dir < FRAME_COUNT && b + n + 1 <= STACK_END
    ensures |frames| < n ==>
              (HasTable(w.mem, w.dir, (b + n - 1) / 1024) <==> TopReached(w0, b, n, |frames|))
  {}

  /** How making a thread ends once it has a structure, m of the n pages of its stack at b having got
      a frame and a table: with a prepared thread when all have; otherwise at the first store to the
      stack, through the top page, when that page's slot has no table; otherwise with a thread whose
      missing pages map the topmost frame or, without a table, nothing. */
  ghost predicate StackEnds(w: State, b: nat, n: nat, m: nat, thread: Word, out: Outcome)
    requires w.dir < FRAME_COUNT && 0 < n && b + n <= WINDOW
  {
    && (out == Returned(thread) <==> !Short(w, b, n))
    && (out == PageFault <==> Short(w, b, n) && !TopReached(w, b, n, m))
    && (out == Torn(thread) <==> Short(w, b, n) && TopReached(w, b, n, m))
  }

  /** No two stacks belong to one thread. */
  lemma OneStack(w: State, b: nat, b': nat)
    requires SlicesOk(w) && b in w.v.slices && b' in w.v.slices && b >= LARGE_END && b' >= LARGE_END
    requires w.v.slices[b].thread == w.v.slices[b'].thread
    ensures b' == b
  {}

  /** Once its stack is taken apart the structure belongs to no stack. */
  lemma DroppedNoThread(w: State, b: nat)
    requires SlicesOk(w) && b in w.v.slices && b >= LARGE_END
    ensures w.v.slices[b].thread % 4 == 0
    ensures LiveObject(w, POOL, w.v.slices[b].thread / 0x1000, w.v.slices[b].thread % 0x1000 / 4)
    ensures NoThread(SliceDropped(w, b), POOL, w.v.slices[b].thread / 0x1000, w.v.slices[b].thread % 0x1000 / 4)
  {
    hide SlicesOk;
    var t := w.v.slices[b].thread;
    StackThread(w, b);
    assert Address(t / 0x1000, t % 0x1000 / 4) == t;
    forall b' | b' in w.v.slices && b' != b && b' >= LARGE_END ensures w.v.slices[b'].thread != t {
      if w.v.slices[b'].thread == t {
        OneStack(w, b, b');
      }
    }
  }

  lemma StackThread(w: State, b: nat)
    requires SlicesOk(w) && b in w.v.slices && b >= LARGE_END
    ensures ThreadOk(w, b, |w.v.slices[b].frames|, w.v.slices[b].thread)
  {
    assert SliceOk(w, b, w.v.slices[b]);
  }

  lemma StackTopWords(page: Frame, trampoline: Word)
    ensures FirstWords(StackTop(page, trampoline, 4), trampoline)
  {
    var p0 := StackTop(page, trampoline, 0);
    var p1 := StackTop(page, trampoline, 1);
    var p2 := StackTop(page, trampoline, 2);
    var p3 := StackTop(page, trampoline, 3);
    assert StackTop(page, trampoline, 4) == p0[1022 := 0][1021 := 0][1020 := 0][1019 := 0];
  }

  lemma ThreadFilledWords(page: Frame, o: nat, base: Word, pages: Word, esp: Word, id: Word, entry: Word)
    requires o + 8 <= 1024
    ensures ThreadWords(ThreadFilled(StackNoted(page, o, base, pages), o, esp, id, entry), o, id, esp, base, entry,
                        pages)
  {}

  /** The three groups of stores that prepare a thread, one after the other. */
  ghost predicate Filling(w: State, w': State, f: nat, o: nat, g: nat, base: Word, pages: Word, trampoline: Word,
                          esp: Word, id: Word, entry: Word)
    requires o + 8 <= 1024 && f < FRAME_COUNT && g < FRAME_COUNT
  {
    var w1 := WithFrame(w, f, StackNoted(w.mem[f], o, base, pages));
    var w2 := WithFrame(w1, g, StackTop(w1.mem[g], trampoline, 4));
    w' == WithFrame(w2, f, ThreadFilled(w2.mem[f], o, esp, id, entry))
  }

  lemma FillingSteps(w: State, w1: State, w2: State, w3: State, f: nat, o: nat, g: nat, base: Word, pages: Word,
                     trampoline: Word, esp: Word, id: Word, entry: Word)
    requires o + 8 <= 1024 && f < FRAME_COUNT && g < FRAME_COUNT
    requires w1 == WithFrame(w, f, StackNoted(w.mem[f], o, base, pages))
    requires w2 == WithFrame(w1, g, StackTop(w1.mem[g], trampoline, 4))
    requires w3 == WithFrame(w2, f, ThreadFilled(w2.mem[f], o, esp, id, entry))
    requires Kept(w, w1, {Object(POOL, f, o)}) && Kept(w1, w2, {}) && Kept(w2, w3, {Object(POOL, f, o)})
    ensures Filling(w, w3, f, o, g, base, pages, trampoline, esp, id, entry)
    ensures Kept(w, w3, {Object(POOL, f, o)})
  {}

  lemma FillingReady(w: State, w': State, f: nat, o: nat, g: nat, b: nat, pages: Word, trampoline: Word,
                     esp: Word, id: Word, entry: Word, thread: Word)
    requires o + 8 <= 1024 && f < FRAME_COUNT && g < FRAME_COUNT && f != g && b < FRAME_COUNT
    requires Filling(w, w', f, o, g, b * 0x1000, pages, trampoline, esp, id, entry)
    requires LiveObject(w', POOL, f, o) && thread % 4 == 0 && thread / 0x1000 == f && thread % 0x1000 / 4 == o
    ensures w' == w.(mem := w'.mem) && ThreadOk(w', b, pages, thread)
    ensures ThreadWords(w'.mem[f], o, id, esp, b * 0x1000, entry, pages) && FirstWords(w'.mem[g], trampoline)
  {
    StackTopWords(w.mem[g], trampoline);
    ThreadFilledWords(w.mem[f], o, b * 0x1000, pages, esp, id, entry);
  }

  lemma LastFrame(w0: State, w: State, b: nat, end: nat, frames: seq<nat>)
    requires Laid(w0, w, b, end, frames) && frames != []
    ensures frames[|frames| - 1] < FRAME_COUNT && Owns(w, frames[|frames| - 1], Orphan)
    ensures Walk(w.mem, w.dir, b + |frames| - 1) == Some(frames[|frames| - 1])
  {}

  /** The structure that the pool handed out for a new thread. */
  lemma ThreadObject(w: State, w': State, out: Outcome)
    requires Inv(w) && Inv(w') && Kept(w, w', {}) && AllocStep(w, w', POOL, out) && out.Returned? && out.ptr != 0
    ensures out.ptr / 0x1000 < FRAME_COUNT && out.ptr % 4 == 0
    ensures LiveObject(w', POOL, out.ptr / 0x1000, out.ptr % 0x1000 / 4)
    ensures !LiveObject(w, POOL, out.ptr / 0x1000, out.ptr % 0x1000 / 4)
    ensures NoThread(w', POOL, out.ptr / 0x1000, out.ptr % 0x1000 / 4)
    ensures w'.v.slices == w.v.slices && w'.nextLarge == w.nextLarge && w'.nextStack == w.nextStack
  {
    var f, o := out.ptr / 0x1000, out.ptr % 0x1000 / 4;
    AllocGives(w, w', POOL, out);
    AllocKeepsSlices(w, w', POOL, out);
    LivePage(w', POOL, f, o);
    DeadNoThread(w, POOL, f, o);
    NoThreadSame(w, w', POOL, f, o);
  }

  lemma ThreadFits(w: State, thread: Word)
    requires SlicesOk(w) && LiveObject(w, POOL, thread / 0x1000, thread % 0x1000 / 4)
    ensures thread / 0x1000 < FRAME_COUNT && thread % 0x1000 / 4 + 8 <= 1024 && w.nextStack <= STACK_END
  {}

  lemma CursorBounds(w: State)
    requires SlicesOk(w)
    ensures STACK_BASE <= w.nextStack <= STACK_END
  {}

  /** The prepared thread takes possession of its stack. */
  lemma FinishReady(w0: State, w: State, w1: State, thread: Word, b: nat, frames: seq<nat>, entry: Word, id: Word,
                    trampoline: Word, g: nat)
    requires Laid(w0, w, b, b + |frames| + 1, frames) && frames != [] && g == frames[|frames| - 1] < FRAME_COUNT
    requires thread % 4 == 0 && thread / 0x1000 < FRAME_COUNT && thread % 0x1000 / 4 + 8 <= 1024
    requires STACK_BASE <= b && b + |frames| + 1 <= w.nextStack <= STACK_END && Owns(w, g, Orphan)
    requires Filling(w, w1, thread / 0x1000, thread % 0x1000 / 4, g, b * 0x1000, |frames|, trampoline,
                     (b + |frames|) * 0x1000 - 20, id, entry)
    requires LiveObject(w, POOL, thread / 0x1000, thread % 0x1000 / 4)
    requires LiveObject(w1, POOL, thread / 0x1000, thread % 0x1000 / 4)
    requires Inv(w1) && Kept(w, w1, {Object(POOL, thread / 0x1000, thread % 0x1000 / 4)})
    requires forall p | 0 <= p < FRAME_COUNT :: Walk(w1.mem, w.dir, p) == Walk(w.mem, w.dir, p)
    ensures b !in w.v.slices && w1.v == w.v
    ensures Inv(SliceAdopted(w1, b, Slice(frames, thread)))
    ensures LiveBlocks(SliceAdopted(w1, b, Slice(frames, thread)).v) == LiveBlocks(w.v) + {Run(b)}
    ensures Kept(w, SliceAdopted(w1, b, Slice(frames, thread)), {Object(POOL, thread / 0x1000, thread % 0x1000 / 4)})
    ensures ThreadReady(SliceAdopted(w1, b, Slice(frames, thread)), thread, b, |frames|, g, entry, id, trampoline)
  {
    hide Kept, Filling, SlabsOk, OwnersOk, LiveBlocks;
    var f, o := thread / 0x1000, thread % 0x1000 / 4;
    FillingReady(w, w1, f, o, g, b, |frames|, trampoline, (b + |frames|) * 0x1000 - 20, id, entry, thread);
    StackAdopt(w0, w, w1, b, |frames|, frames, thread);
    var w2 := SliceAdopted(w1, b, Slice(frames, thread));
    KeptThen(w, w1, w2, {Object(POOL, f, o)});
    KeptLive(w1, w2, POOL, f, o);
  }

  lemma FillingDir(w: State, w': State, f: nat, o: nat, g: nat, base: Word, pages: Word, trampoline: Word,
                   esp: Word, id: Word, entry: Word)
    requires o + 8 <= 1024 && f < FRAME_COUNT && g < FRAME_COUNT && f != w.dir && g != w.dir && w.dir < FRAME_COUNT
    requires Filling(w, w', f, o, g, base, pages, trampoline, esp, id, entry)
    ensures w' == w.(mem := w'.mem) && w'.mem[w.dir] == w.mem[w.dir]
  {}

  lemma NotDirectory(w: State, f: nat, o: nat, g: nat)
    requires Inv(w) && LiveObject(w, POOL, f, o) && Spare(w, g)
    ensures f < LARGE_BASE && f != w.dir < FRAME_COUNT && g != w.dir
  {
    LivePage(w, POOL, f, o);
    SpareIsNoTable(w, g);
  }

  lemma TopFrameSpare(w: State)
    requires OwnersOk(w)
    ensures Spare(w, FRAME_COUNT - 1)
  {}

  /** The thread prepared on the topmost frame. */
  lemma TornReady(w: State, w': State, thread: Word, b: nat, pages: Word, trampoline: Word, id: Word, entry: Word)
    requires thread % 4 == 0 && thread / 0x1000 < LARGE_BASE && thread % 0x1000 / 4 + 8 <= 1024
    requires 0 < pages && STACK_BASE <= b && b + pages < STACK_END
    requires Filling(w, w', thread / 0x1000, thread % 0x1000 / 4, FRAME_COUNT - 1, b * 0x1000, pages, trampoline,
                     (b + pages) * 0x1000 - 20, id, entry)
    requires LiveObject(w', POOL, thread / 0x1000, thread % 0x1000 / 4)
    ensures ThreadReady(w', thread, b, pages, FRAME_COUNT - 1, entry, id, trampoline)
  {
    hide Filling, LiveObject;
    FillingReady(w, w', thread / 0x1000, thread % 0x1000 / 4, FRAME_COUNT - 1, b, pages, trampoline,
                 (b + pages) * 0x1000 - 20, id, entry, thread);
  }

  /** How many frames the pool takes for a structure, tables included. */
  ghost function PoolCost(w: State): nat
    requires |w.v.slabs| == CACHES && w.dir < FRAME_COUNT
  {
    if FirstOpen(w.v.slabs[POOL], w.v.free, 0) < |w.v.slabs[POOL]| || AllUsed(w.used) then 0
    else if HasTable(w.mem, w.dir, Lowest(w.used) / 1024) then 1
    else 2
  }

  /** Too few frames are free for a structure and a stack of n pages with their tables. */
  ghost predicate StackShort(w: State, n: nat)
    requires |w.v.slabs| == CACHES && w.dir < FRAME_COUNT && w.nextStack + n <= WINDOW
  {
    |w.used| + PoolCost(w) + Needed(w.mem, w.dir, w.nextStack, n) > FRAME_COUNT
  }

  /** Once the pool has given a structure, what is left for the stack is known from the state before. */
  lemma PoolMid(w: State, mid: State, slot: Outcome, n: nat)
    requires Inv(w) && Inv(mid) && mid.dir == w.dir && AllocStep(w, mid, POOL, slot) && Succeeded(slot)
    requires w.nextStack + n <= STACK_END
    ensures |w.v.slabs| == CACHES && w.dir < FRAME_COUNT && mid.nextStack == w.nextStack
    ensures Short(mid, w.nextStack, n) <==> StackShort(w, n)
    ensures AllUsed(mid.used) <==> |w.used| + PoolCost(w) == FRAME_COUNT
  {
    hide SlabsOk, SlicesOk, AllocStep, TablesOk, TablesOwned, BootOwned, BootExactly, AllUsed, PoolCost, HasTable;
    DirIsHere(w);
    AllocKeepsSlices(w, mid, POOL, slot);
    PoolUsed(w, mid, slot);
    PoolTables(w, mid, slot);
    CursorBounds(w);
    NeededSame(w.mem, mid.mem, w.dir, w.nextStack, n);
    AllUsedCount(mid.used);
  }

  lemma DirIsHere(w: State)
    requires Inv(w)
    ensures w.dir < FRAME_COUNT && |w.v.slabs| == CACHES
  {}

  lemma PoolUsed(w: State, mid: State, slot: Outcome)
    requires Inv(w) && mid.dir == w.dir && AllocStep(w, mid, POOL, slot) && Succeeded(slot)
    ensures |w.v.slabs| == CACHES && w.dir < FRAME_COUNT && |mid.used| == |w.used| + PoolCost(w)
  {
    hide SlicesOk, ListOk, SlabOk, TablesOk, TablesOwned, BootOwned, BootExactly, SameSlices;
    if FirstOpen(w.v.slabs[POOL], w.v.free, 0) == |w.v.slabs[POOL]| {
      var f := Lowest(w.used);
      assert f !in w.used;
      if !HasTable(w.mem, w.dir, f / 1024) {
        assert CanMap(w.mem, w.dir, w.used + {f}, f);
        assert Lowest(w.used + {f}) !in w.used + {f};
      }
    }
  }

  /** An allocation opens no slot of the stack region. */
  lemma PoolTables(w: State, mid: State, slot: Outcome)
    requires Inv(w) && Inv(mid) && mid.dir == w.dir && AllocStep(w, mid, POOL, slot) && Succeeded(slot)
    ensures w.dir < FRAME_COUNT
    ensures forall s | STACK_BASE / 1024 <= s < 1023 :: HasTable(mid.mem, w.dir, s) == HasTable(w.mem, w.dir, s)
  {
    hide SlicesOk, TablesOk, BootOwned, BootExactly, SameSlices, ListOk, SlabOk;
    DirIsHere(w);
    if FirstOpen(w.v.slabs[POOL], w.v.free, 0) == |w.v.slabs[POOL]| {
      FreshTables(w, mid, Lowest(w.used));
    } else {
      ListedSlab(w, POOL, FirstOpen(w.v.slabs[POOL], w.v.free, 0));
    }
  }

  lemma FreshTables(w: State, mid: State, f: nat)
    requires OwnersOk(w) && OwnersOk(mid) && SlabsOk(mid) && |w.v.slabs| == CACHES && mid.dir == w.dir
    requires f < LARGE_BASE && FreshSlab(w, mid, POOL, f)
    ensures forall s | STACK_BASE / 1024 <= s < 1023 :: HasTable(mid.mem, w.dir, s) == HasTable(w.mem, w.dir, s)
  {
    FreshTableOwners(w, mid, f);
    hide SlabsOk, TablesOk, BootOwned, BootExactly, FreshSlab;
    forall s | STACK_BASE / 1024 <= s < 1023 ensures HasTable(mid.mem, w.dir, s) == HasTable(w.mem, w.dir, s) {
      SlotSame(w, mid, f / 1024, s);
    }
  }

  /** Besides the tables there were, the slot of the new slab's page may have got one. */
  lemma FreshTableOwners(w: State, mid: State, f: nat)
    requires OwnersOk(w) && OwnersOk(mid) && SlabsOk(mid) && |w.v.slabs| == CACHES && mid.dir == w.dir
    requires f < LARGE_BASE && FreshSlab(w, mid, POOL, f)
    ensures OwnersExtended(w, mid)
    ensures forall t | t in mid.v.owner && mid.v.owner[t].Table? :: t in w.v.owner || mid.v.owner[t] == Table(f / 1024)
  {
    NewSlabOwner(w, mid, f);
    OwnersAreUsed(w);
    OwnersAreUsed(mid);
    hide SlabsOk, TablesOk, BootOwned, BootExactly, SameSlices;
    NewFrames(w, mid, f);
  }

  lemma NewSlabOwner(w: State, mid: State, f: nat)
    requires SlabsOk(mid) && |w.v.slabs| == CACHES && w.dir < FRAME_COUNT && mid.dir < FRAME_COUNT
    requires f < LARGE_BASE && FreshSlab(w, mid, POOL, f)
    ensures Owns(mid, f, Slab(POOL)) && TookFrame(w, mid, f) && OwnersExtended(w, mid)
  {
    assert ListOk(mid, POOL);
    assert Owns(mid, mid.v.slabs[POOL][0], Slab(POOL));
  }

  lemma NewFrames(w: State, mid: State, f: nat)
    requires w.v.owner.Keys == w.used && mid.v.owner.Keys == mid.used && mid.dir == w.dir < FRAME_COUNT
    requires TablesOwned(w.mem, w.dir, w.v.owner) && TablesOwned(mid.mem, w.dir, mid.v.owner)
    requires f < LARGE_BASE && TookFrame(w, mid, f) && OwnersExtended(w, mid) && Owns(mid, f, Slab(POOL))
    ensures forall t | t in mid.v.owner && mid.v.owner[t].Table? :: t in w.v.owner || mid.v.owner[t] == Table(f / 1024)
  {
    if !HasTable(w.mem, w.dir, f / 1024) {
      var t := TableOf(mid.mem, w.dir, f / 1024);
      assert mid.v.owner[t] == Table(f / 1024);
      assert t in w.v.owner ==> Owns(mid, t, w.v.owner[t]);
    }
  }

  lemma SlotSame(w: State, mid: State, p: nat, s: nat)
    requires w.dir < FRAME_COUNT && TablesOwned(w.mem, w.dir, w.v.owner) && TablesOwned(mid.mem, w.dir, mid.v.owner)
    requires OwnersExtended(w, mid) && s < 1023 && s != p
    requires forall t | t in mid.v.owner && mid.v.owner[t].Table? :: t in w.v.owner || mid.v.owner[t] == Table(p)
    ensures HasTable(mid.mem, w.dir, s) == HasTable(w.mem, w.dir, s)
  {
    if HasTable(w.mem, w.dir, s) {
      var t := TableOf(w.mem, w.dir, s);
      assert Owns(mid, t, w.v.owner[t]);
    }
    if HasTable(mid.mem, w.dir, s) {
      var t := TableOf(mid.mem, w.dir, s);
      assert mid.v.owner[t] == Table(s) && t in w.v.owner && Owns(mid, t, w.v.owner[t]);
    }
  }

  /** Creating a thread, step by step: a structure from the pool in the state mid, then the stack. */
  ghost predicate Created(w: State, mid: State, w': State, n: Word, slot: Outcome, out: Outcome, frames: seq<nat>,
                          taken: set<nat>)
    requires Inv(w) && w.nextStack + n <= STACK_END && n > 0
  {
    && Inv(mid) && mid.dir == w.dir < FRAME_COUNT && AllocStep(w, mid, POOL, slot) && !slot.Torn?
    && (if Succeeded(slot) then
          && StackEnds(mid, w.nextStack, n, |frames|, slot.ptr, out)
          && LayTook(mid, w', w.nextStack, n, Succeeded(out), frames, taken)
          && LiveBlocks(w'.v) == LiveBlocks(mid.v) + (if Succeeded(out) then {Run(w.nextStack)} else {})
          && (Succeeded(out) ==> w.nextStack in w'.v.slices && w'.v.slices[w.nextStack].frames == frames)
        else w' == mid && out == slot && taken == {})
  }

  /** Exactly when it succeeds, and when it takes frames in vain: known from the state before. */
  lemma CreateServes(w: State, mid: State, w': State, n: Word, slot: Outcome, out: Outcome, frames: seq<nat>,
                     taken: set<nat>)
    requires Inv(w) && w.nextStack + n <= STACK_END && n > 0 && Created(w, mid, w', n, slot, out, frames, taken)
    ensures |w.v.slabs| == CACHES && w.dir < FRAME_COUNT
    ensures Succeeded(slot) <==> PageServes(w, POOL)
    ensures Succeeded(out) <==> PageServes(w, POOL) && !StackShort(w, n)
    ensures Succeeded(slot) ==> (taken == {} <==> |w.used| + PoolCost(w) == FRAME_COUNT)
    ensures !Succeeded(slot) ==> (SlabTaken(w, POOL) == {} <==> !PageStrands(w, POOL))
  {
    hide Inv, AllocStep, Short, StackShort, PoolCost, AllUsed, PageServes, PageStrands, SlabTaken, LiveBlocks, Accounts;
    DirIsHere(w);
    AllocServes(w, mid, POOL, slot);
    if Succeeded(slot) {
      PoolMid(w, mid, slot, n);
    } else if slot == Returned(0) {
      RefusedTook(w, mid, POOL, slot);
    }
  }

  /** The blocks it makes live: its structure as soon as the pool has one, and its stack. */
  ghost function Made(w: State, slot: Outcome, out: Outcome): set<Block> {
    Handed(POOL, slot) + if Succeeded(out) then {Run(w.nextStack)} else {}
  }

  lemma CreateLive(w: State, mid: State, w': State, n: Word, slot: Outcome, out: Outcome, frames: seq<nat>,
                   taken: set<nat>)
    requires Inv(w) && w.nextStack + n <= STACK_END && n > 0 && Created(w, mid, w', n, slot, out, frames, taken)
    ensures LiveBlocks(w'.v) == LiveBlocks(w.v) + Made(w, slot, out)
  {
    hide Inv, AllocStep, StackEnds, LayTook, LiveBlocks;
    AllocLive(w, mid, POOL, slot);
  }

  /** Neither the structure nor the stack was live before. */
  lemma MadeNew(w: State, mid: State, w': State, n: Word, slot: Outcome, out: Outcome, frames: seq<nat>,
                taken: set<nat>)
    requires Inv(w) && w.nextStack + n + 1 <= STACK_END && n > 0
    requires Created(w, mid, w', n, slot, out, frames, taken)
    ensures Made(w, slot, out) !! LiveBlocks(w.v)
  {
    hide OwnersOk, SlabsOk, SlicesOk, LayTook, StackEnds, LiveBlocks, AllocStep, Accounts;
    LiveBlocksAre(w);
    FreshCursor(w);
    if Succeeded(slot) {
      AllocGives(w, mid, POOL, slot);
    }
  }

  /** The frames of a set of blocks. */
  ghost function AllFrames(v: View, blocks: set<Block>): set<nat> {
    set x, f | x in blocks && f in FramesOf(v, x) :: f
  }

  /** The frames it takes are those of what it makes live, and the ones it leaves to nobody. */
  lemma CreateTaken(w: State, mid: State, w': State, n: Word, slot: Outcome, out: Outcome, frames: seq<nat>,
                    taken: set<nat>)
    requires Inv(w) && w.nextStack + n <= STACK_END && n > 0 && Created(w, mid, w', n, slot, out, frames, taken)
    ensures |w.v.slabs| == CACHES
    ensures SlabTaken(w, POOL) + taken ==
            (AllFrames(w'.v, Made(w, slot, out)) - w.used)
            + if Succeeded(out) then {} else if Succeeded(slot) then taken else SlabTaken(w, POOL)
  {
    hide Inv, AllocStep, StackEnds, LiveBlocks, SlabTaken, LayTook, AllFrames, Made;
    DirIsHere(w);
    if Succeeded(slot) {
      SlabTakenIs(w, mid, POOL, slot);
      MidUsed(w, mid, slot);
      StackTaken(mid, w', w.nextStack, n, Succeeded(out), frames, taken);
      if Succeeded(out) {
        MadeFrames(w, w', slot, out, frames);
      } else {
        StructureFrames(w, w', slot, out);
      }
    } else {
      NothingMade(w, w', slot, out);
    }
  }

  lemma StackTaken(mid: State, w': State, b: nat, n: nat, good: bool, frames: seq<nat>, taken: set<nat>)
    requires mid.dir < FRAME_COUNT && b + n <= WINDOW && LayTook(mid, w', b, n, good, frames, taken)
    ensures taken !! mid.used && (good ==> taken == ToSet(frames))
  {}

  lemma NothingMade(w: State, w': State, slot: Outcome, out: Outcome)
    requires !Succeeded(slot) && out == slot
    ensures AllFrames(w'.v, Made(w, slot, out)) == {}
  {}

  lemma StructureFrames(w: State, w': State, slot: Outcome, out: Outcome)
    requires Succeeded(slot) && !Succeeded(out)
    ensures AllFrames(w'.v, Made(w, slot, out)) == {slot.ptr / 0x1000}
  {
    var x := Object(POOL, slot.ptr / 0x1000, slot.ptr % 0x1000 / 4);
    assert Made(w, slot, out) == {x} && FramesOf(w'.v, x) == {slot.ptr / 0x1000};
  }

  lemma MidUsed(w: State, mid: State, slot: Outcome)
    requires Inv(w) && Inv(mid) && AllocStep(w, mid, POOL, slot) && !slot.Torn?
    ensures w.used <= mid.used
  {
    AllocAccounts(w, mid, POOL, slot);
    TablesUsed(w);
  }

  lemma TablesUsed(w: State)
    requires OwnersOk(w)
    ensures Tables(w) <= w.used
  {}

  lemma MadeFrames(w: State, w': State, slot: Outcome, out: Outcome, frames: seq<nat>)
    requires Succeeded(slot) && Succeeded(out)
    requires w.nextStack in w'.v.slices && w'.v.slices[w.nextStack].frames == frames
    ensures AllFrames(w'.v, Made(w, slot, out)) == {slot.ptr / 0x1000} + ToSet(frames)
  {
    var x, y := Object(POOL, slot.ptr / 0x1000, slot.ptr % 0x1000 / 4), Run(w.nextStack);
    assert FramesOf(w'.v, x) == {slot.ptr / 0x1000} && FramesOf(w'.v, y) == ToSet(frames);
    assert Made(w, slot, out) == {x, y};
    forall f ensures f in AllFrames(w'.v, {x, y}) <==> f in {slot.ptr / 0x1000} + ToSet(frames) {
      if f in FramesOf(w'.v, x) {
        assert x in {x, y};
      }
      if f in FramesOf(w'.v, y) {
        assert y in {x, y};
      }
    }
  }

  /** The frames that creating a thread takes: those for its structure and those for its stack; only
      a creation that fails leaves frames to nobody. */
  lemma CreateAccounts(w: State, mid: State, w': State, slot: Outcome, out: Outcome, taken: set<nat>)
    requires Inv(w) && Inv(mid) && AllocStep(w, mid, POOL, slot) && !slot.Torn?
    requires if Succeeded(slot) then Accounts(mid, w', taken, {}, if Succeeded(out) then {} else taken)
             else w' == mid && taken == {} && out == slot
    ensures |w.v.slabs| == CACHES
    ensures Accounts(w, w', SlabTaken(w, POOL) + taken, {},
                     if Succeeded(out) then {} else if Succeeded(slot) then taken else SlabTaken(w, POOL))
  {
    hide Accounts, AllocStep, SlabTaken, OwnersOk, SlicesOk, ListOk, SlabOk;
    AllocAccounts(w, mid, POOL, slot);
    if slot == Returned(0) {
      RefusedTook(w, mid, POOL, slot);
    }
    if Succeeded(slot) {
      var left: set<nat> := if Succeeded(out) then {} else taken;
      AccountsGain(w, mid, w', SlabTaken(w, POOL), {}, taken, left);
      assert {} + left == left;
    }
    assert SlabTaken(w, POOL) + {} == SlabTaken(w, POOL);
  }

  /** What freeing an object does besides. */
  lemma FreedObject(w: State, w': State, c: nat, f: nat, o: nat)
    requires Inv(w) && Inv(w') && LiveObject(w, c, f, o) && f < FRAME_COUNT && o < 1024 && FreeStep(w, w', c, f, o)
    ensures !LiveObject(w', c, f, o) && w'.v.slices == w.v.slices && w'.used == w.used - PageBack(w, c, f)
  {
    if |w.v.free[f]| + 1 < Capacity(ObjectWords(c)) {
      assert w'.v.free[f][0] == o;
    }
  }

  /** The structure of the thread whose stack is at b, as `thread_destroy` reads it. */
  lemma ThreadFound(w: State, b: nat)
    requires Inv(w) && b in w.v.slices && b >= LARGE_END
    ensures |w.v.slices[b].frames| > 0 && STACK_BASE <= b && b + |w.v.slices[b].frames| + 1 <= STACK_END
    ensures w.v.slices[b].thread % 4 == 0 && w.v.slices[b].thread / 0x1000 < LARGE_BASE
    ensures w.v.slices[b].thread % 0x1000 / 4 + 8 <= 1024
    ensures LiveObject(w, POOL, w.v.slices[b].thread / 0x1000, w.v.slices[b].thread % 0x1000 / 4)
    ensures w.mem[w.v.slices[b].thread / 0x1000][w.v.slices[b].thread % 0x1000 / 4 + 2] == b * 0x1000
    ensures w.mem[w.v.slices[b].thread / 0x1000][w.v.slices[b].thread % 0x1000 / 4 + 7] == |w.v.slices[b].frames|
    ensures Walk(w.mem, w.dir, w.v.slices[b].thread / 0x1000) == Some(w.v.slices[b].thread / 0x1000)
    ensures !IsTable(w.mem, w.dir, w.v.slices[b].thread / 0x1000)
  {
    var t := w.v.slices[b].thread;
    assert SliceOk(w, b, w.v.slices[b]);
    LivePage(w, POOL, t / 0x1000, t % 0x1000 / 4);
  }

  lemma DroppedThread(w: State, w1: State, w2: State, b: nat)
    requires Inv(w) && b in w.v.slices && b >= LARGE_END && w1 == SliceDropped(w, b)
    requires Kept(w, w1, {Run(b)}) && Kept(w1, w2, {}) && w2.v.slices == w1.v.slices
    ensures w.v.slices[b].thread / 0x1000 < FRAME_COUNT
    ensures LiveObject(w2, POOL, w.v.slices[b].thread / 0x1000, w.v.slices[b].thread % 0x1000 / 4)
    ensures NoThread(w2, POOL, w.v.slices[b].thread / 0x1000, w.v.slices[b].thread % 0x1000 / 4)
  {
    var f, o := w.v.slices[b].thread / 0x1000, w.v.slices[b].thread % 0x1000 / 4;
    DroppedNoThread(w, b);
    assert LiveBlock(w, Object(POOL, f, o));
    KeptLive(w1, w2, POOL, f, o);
    NoThreadSame(w1, w2, POOL, f, o);
  }

  /** A stack taken apart, before its pages are. */
  lemma StackDropped(w: State, b: nat, frames: seq<nat>)
    requires Inv(w) && b in w.v.slices && b >= LARGE_END && frames == w.v.slices[b].frames
    ensures Inv(SliceDropped(w, b)) && Kept(w, SliceDropped(w, b), {Run(b)})
    ensures Remaining(SliceDropped(w, b), b, b + |frames| + 1, frames, 0)
  {
    hide Kept, OwnersOk, SlabsOk;
    ThreadFound(w, b);
    SliceDroppedInv(w, b);
    SliceDroppedMounted(w, b);
    RemainingStart(SliceDropped(w, b), b, b + |frames| + 1, frames);
  }
}
