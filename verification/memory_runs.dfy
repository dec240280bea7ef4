/** Runs of calls into the memory stack: what becomes of the frames and of the blocks. */
module MemoryRuns {
  import opened Words
  import opened SlabPage
  import opened World
  import opened Transitions
  import opened HeapSteps
  import opened Isolation
  import opened HeapCalls
  import opened Ownership
  import opened ThreadSteps
  import opened ThreadMemory

  /** A call and how it ended: kmalloc with the frames it took, kfree, a store by a block's owner,
      `thread_create_sized` with what the pool gave for the structure, the frames it took and those it
      left to nobody, `thread_destroy` of the thread whose stack is at base, a store by that thread to
      a word of its own. */
  datatype Call =
    | Alloc(size: Word, out: Outcome, taken: set<nat>)
    | Free(ptr: Word)
    | Store(ptr: Word, k: nat, v: Word)
    | Create(pages: Word, out: Outcome, slot: Outcome, taken: set<nat>, left: set<nat>)
    | Destroy(base: nat)
    | Write(base: nat, a: Word, v: Word)

  /** The pointer or the stack is one that was handed out and not taken back; a new stack has pages,
      and its region has room for it. */
  ghost predicate Permitted(w: State, call: Call) {
    match call
    case Alloc(size, out, taken) => true
    case Free(ptr) => ptr == 0 || IsHeapPtr(w, ptr)
    case Store(ptr, k, v) => IsHeapPtr(w, ptr)
    case Create(pages, out, slot, taken, left) => 0 < pages && w.nextStack + pages + 1 <= STACK_END
    case Destroy(b) => HasStack(w, b)
    case Write(b, a, v) => HasStack(w, b) && OwnWord(w, b, a)
  }

  ghost predicate Succeeds(call: Call) {
    match call
    case Alloc(size, out, taken) => Succeeded(out)
    case Create(pages, out, slot, taken, left) => Succeeded(out)
    case _ => true
  }

  /** What the caller can check beforehand: the call will succeed. */
  ghost predicate Served(w: State, call: Call)
    requires Inv(w) && Permitted(w, call)
  {
    match call
    case Alloc(size, out, taken) => RequestServed(w, size)
    case Create(pages, out, slot, taken, left) => PageServes(w, POOL) && !StackShort(w, pages)
    case _ => true
  }

  /** What the caller can check beforehand: the call will leave frames to nobody. A thread does so when
      its structure cannot be had although a frame was free, or when its stack cannot although one is
      left after the structure. */
  ghost predicate Strands(w: State, call: Call) {
    Inv(w) && Permitted(w, call) &&
    match call
    case Alloc(size, out, taken) => RequestStrands(w, size)
    case Create(pages, out, slot, taken, left) =>
      || PageStrands(w, POOL)
      || (PageServes(w, POOL) && StackShort(w, pages) && |w.used| + PoolCost(w) != FRAME_COUNT)
    case _ => false
  }

  /** The blocks that the call frees or writes. */
  ghost function Touched(w: State, call: Call): set<Block>
    requires Permitted(w, call)
  {
    match call
    case Alloc(size, out, taken) => {}
    case Free(ptr) => if ptr == 0 then {} else {BlockAt(w, ptr)}
    case Store(ptr, k, v) => {BlockAt(w, ptr)}
    case Create(pages, out, slot, taken, left) => {}
    case Destroy(b) => Own(w, b)
    case Write(b, a, v) => Own(w, b)
  }

  /** The blocks that the call frees. */
  ghost function Ended(w: State, call: Call): set<Block>
    requires Permitted(w, call)
  {
    if call.Store? || call.Write? then {} else Touched(w, call)
  }

  /** The blocks that the call hands out: the one a request asked for, or a structure and its stack. A
      thread that cannot be finished keeps its structure. */
  ghost function Begun(w: State, w': State, call: Call): set<Block> {
    match call
    case Alloc(size, out, taken) => if Succeeded(out) then {BlockAt(w', out.ptr)} else {}
    case Create(pages, out, slot, taken, left) => Made(w, slot, out)
    case _ => {}
  }

  ghost function TakenBy(call: Call): set<nat> {
    match call
    case Alloc(size, out, taken) => taken
    case Create(pages, out, slot, taken, left) => taken
    case _ => {}
  }

  /** The frames that the call leaves to nobody. */
  ghost function LeftBy(call: Call): set<nat> {
    match call
    case Alloc(size, out, taken) => if Succeeded(out) then {} else taken
    case Create(pages, out, slot, taken, left) => if Succeeded(out) then {} else left
    case _ => {}
  }

  /** The frames of a block: those of a run, or the page of a slab's last live object. */
  ghost function FramesBack(w: State, x: Block): set<nat>
    requires LiveBlock(w, x)
  {
    match x
    case Object(c, f, o) => PageBack(w, c, f)
    case Run(b) => ToSet(w.v.slices[b].frames)
  }

  /** The frames that the call frees. */
  ghost function FreedBy(w: State, call: Call): set<nat>
    requires Inv(w) && Permitted(w, call)
  {
    match call
    case Free(ptr) => if ptr == 0 then {} else FramesBack(w, BlockAt(w, ptr))
    case Destroy(b) =>
      StackThread(w, b);
      ToSet(w.v.slices[b].frames) + PageBack(w, POOL, w.v.slices[b].thread / 0x1000)
    case _ => {}
  }

  /** What a call hands out is what was asked for. */
  ghost predicate HandsOut(w: State, w': State, call: Call) {
    match call
    case Alloc(size, out, taken) => Succeeded(out) ==> NewBlock(w, w', size, out.ptr)
    case Create(pages, out, slot, taken, left) =>
      Succeeded(out) ==>
        exists entry: Word, id: Word, trampoline: Word :: ThreadMade(w, w', out.ptr, pages, entry, id, trampoline)
    case _ => true
  }

  /** The blocks live after the call are those before, without the ones freed, and the ones handed out,
      which were not live; the frames taken are those of the blocks handed out and the ones left. */
  ghost predicate Balanced(w: State, w': State, call: Call)
    requires Permitted(w, call)
  {
    && LiveBlocks(w'.v) == (LiveBlocks(w.v) - Ended(w, call)) + Begun(w, w', call)
    && Begun(w, w', call) !! LiveBlocks(w.v)
    && TakenBy(call) == (AllFrames(w'.v, Begun(w, w', call)) - w.used) + LeftBy(call)
  }

  /** What each call promises: the invariant, all blocks but those it is about, the account of the
      used frames and of the blocks, and an outcome known before. */
  ghost predicate CallStep(w: State, w': State, call: Call) {
    && Inv(w) && Inv(w') && Permitted(w, call)
    && Kept(w, w', Touched(w, call))
    && Balanced(w, w', call)
    && Accounts(w, w', TakenBy(call), FreedBy(w, call), LeftBy(call))
    && (!call.Alloc? && !call.Create? ==> w'.used == w.used - FreedBy(w, call))
    && HandsOut(w, w', call)
    && (Succeeds(call) <==> Served(w, call))
    && (LeftBy(call) != {} <==> Strands(w, call))
  }

  lemma AllocStepped(w: State, w': State, size: Word, out: Outcome, taken: set<nat>)
    requires Inv(w) && Inv(w') && Given(w, w', size, out, taken)
    ensures CallStep(w, w', Alloc(size, out, taken))
  {
    hide Inv, Kept, Accounts, NewBlock, LiveBlocks, BlockAt, RequestServed, RequestStrands;
    var call := Alloc(size, out, taken);
    ServedOnly(w, size);
    assert Balanced(w, w', call) by {
      hide Given;
      AllocBalanced(w, w', size, out, taken);
    }
  }

  lemma ServedOnly(w: State, size: Word)
    requires Inv(w)
    ensures RequestServed(w, size) ==> !RequestStrands(w, size)
  {}

  lemma AllocBalanced(w: State, w': State, size: Word, out: Outcome, taken: set<nat>)
    requires Inv(w) && Given(w, w', size, out, taken)
    ensures Balanced(w, w', Alloc(size, out, taken))
  {
    hide Inv, Kept, Accounts, LiveBlocks, BlockAt, RequestServed, RequestStrands, FramesOf;
    LiveBlocksAre(w);
    if Succeeded(out) {
      OneFrames(w'.v, BlockAt(w', out.ptr));
    } else {
      NoneFrames(w'.v);
    }
  }

  lemma OneFrames(v: View, x: Block)
    ensures AllFrames(v, {x}) == FramesOf(v, x)
  {}

  lemma NoneFrames(v: View)
    ensures AllFrames(v, {}) == {}
  {}

  /** A call that neither hands out a block nor takes a frame. */
  lemma OnlyEnds(w: State, w': State, call: Call)
    requires Permitted(w, call) && !call.Alloc? && !call.Create?
    requires LiveBlocks(w'.v) == LiveBlocks(w.v) - Ended(w, call)
    ensures Balanced(w, w', call)
  {
    NoneFrames(w'.v);
  }

  lemma FreeStepped(w: State, w': State, ptr: Word)
    requires Inv(w) && Inv(w') && (ptr == 0 || IsHeapPtr(w, ptr))
    requires if ptr == 0 then w' == w else Gone(w, w', BlockAt(w, ptr))
    ensures CallStep(w, w', Free(ptr))
  {
    hide OwnersOk, SlabsOk, SlicesOk, Kept, Accounts, FreeStep, LiveBlocks, Balanced;
    if ptr == 0 {
      KeptRefl(w);
      SameAccounts(w, w');
    } else if BlockAt(w, ptr).Object? {
      FreedObject(w, w', BlockAt(w, ptr).cache, BlockAt(w, ptr).frame, BlockAt(w, ptr).word);
    }
    OnlyEnds(w, w', Free(ptr));
  }

  lemma SameAccounts(w: State, w': State)
    requires Inv(w) && w'.v == w.v && w'.used == w.used
    ensures Accounts(w, w', {}, {}, {})
  {
    AccountsSame(w, w');
  }

  lemma StoreStepped(w: State, w': State, ptr: Word, k: nat, v: Word)
    requires Inv(w) && Inv(w') && IsHeapPtr(w, ptr) && Kept(w, w', {BlockAt(w, ptr)})
    requires w' == w.(mem := w'.mem)
    ensures CallStep(w, w', Store(ptr, k, v))
  {
    hide OwnersOk, SlabsOk, SlicesOk, Kept, Accounts, LiveBlocks, Balanced;
    SameAccounts(w, w');
    OnlyEnds(w, w', Store(ptr, k, v));
  }

  lemma WriteStepped(w: State, w': State, b: nat, a: Word, v: Word)
    requires Inv(w) && Inv(w') && HasStack(w, b) && OwnWord(w, b, a) && Kept(w, w', Own(w, b))
    requires w' == w.(mem := w'.mem)
    ensures CallStep(w, w', Write(b, a, v))
  {
    hide OwnersOk, SlabsOk, SlicesOk, Kept, Accounts, LiveBlocks, Balanced;
    SameAccounts(w, w');
    OnlyEnds(w, w', Write(b, a, v));
  }

  lemma CreateStepped(w: State, mid: State, w': State, pages: Word, out: Outcome, slot: Outcome, frames: seq<nat>,
                      taken: set<nat>, entry: Word, id: Word, trampoline: Word)
    requires Inv(w) && Inv(w') && Kept(w, w', {}) && 0 < pages && w.nextStack + pages + 1 <= STACK_END
    requires Created(w, mid, w', pages, slot, out, frames, taken) && |w.v.slabs| == CACHES
    requires Accounts(w, w', SlabTaken(w, POOL) + taken, {},
                      if Succeeded(out) then {} else if Succeeded(slot) then taken else SlabTaken(w, POOL))
    requires Succeeded(out) ==> ThreadMade(w, w', out.ptr, pages, entry, id, trampoline)
    ensures CallStep(w, w', Create(pages, out, slot, SlabTaken(w, POOL) + taken,
                                   if Succeeded(slot) then taken else SlabTaken(w, POOL)))
  {
    hide Inv, Kept, Accounts, ThreadMade, LiveBlocks, SlabTaken, Created, Made, AllFrames;
    hide PageServes, PageStrands, StackShort, PoolCost;
    CreateServes(w, mid, w', pages, slot, out, frames, taken);
    CreateLive(w, mid, w', pages, slot, out, frames, taken);
    CreateTaken(w, mid, w', pages, slot, out, frames, taken);
    MadeNew(w, mid, w', pages, slot, out, frames, taken);
    ServesOnly(w);
  }

  lemma ServesOnly(w: State)
    requires Inv(w)
    ensures |w.v.slabs| == CACHES && w.dir < FRAME_COUNT && !(PageServes(w, POOL) && PageStrands(w, POOL))
  {}

  lemma DestroyStepped(w: State, w': State, b: nat, f: nat, o: nat)
    requires Inv(w) && Inv(w') && b in w.v.slices && b >= LARGE_END
    requires f == w.v.slices[b].thread / 0x1000 && o == w.v.slices[b].thread % 0x1000 / 4
    requires Kept(w, w', {Run(b), Object(POOL, f, o)}) && f in w.v.free
    requires LiveBlocks(w'.v) == LiveBlocks(w.v) - {Run(b), Object(POOL, f, o)}
    requires Accounts(w, w', {}, ToSet(w.v.slices[b].frames) + PageBack(w, POOL, f), {})
    requires w'.used == w.used - (ToSet(w.v.slices[b].frames) + PageBack(w, POOL, f))
    ensures CallStep(w, w', Destroy(b))
  {
    hide OwnersOk, SlabsOk, SlicesOk, Kept, Accounts, PageBack, ToSet, LiveObject, LiveBlocks, Balanced;
    OnlyEnds(w, w', Destroy(b));
  }

  /** The calls, in this order, lead through these snapshots. */
  ghost predicate IsRun(states: seq<State>, calls: seq<Call>) {
    && |states| == |calls| + 1
    && forall i | 0 <= i < |calls| :: CallStep(states[i], states[i + 1], calls[i])
  }

  lemma RunPrefix(states: seq<State>, calls: seq<Call>)
    requires IsRun(states, calls) && calls != []
    ensures IsRun(states[..|calls|], calls[..|calls| - 1])
    ensures CallStep(states[|calls| - 1], states[|calls|], calls[|calls| - 1])
  {
    hide CallStep;
    forall i | 0 <= i < |calls| - 1
      ensures CallStep(states[..|calls|][i], states[..|calls|][i + 1], calls[..|calls| - 1][i])
    {
      assert CallStep(states[i], states[i + 1], calls[i]);
    }
  }

  /** All frames that the calls left to nobody. */
  ghost function AllLeft(calls: seq<Call>): set<nat> {
    if calls == [] then {} else AllLeft(calls[..|calls| - 1]) + LeftBy(calls[|calls| - 1])
  }

  lemma StepOrphans(w: State, w': State, call: Call)
    requires CallStep(w, w', call)
    ensures Orphans(w') == Orphans(w) + LeftBy(call) && Tables(w) <= Tables(w')
    ensures LeftBy(call) != {} <==> Strands(w, call)
  {
    hide Inv, Kept, Orphans, Tables, HandsOut, Permitted, FreedBy, Balanced, Strands, Served;
  }

  /** Over every run the frames that belong to nobody are those there were and those that calls left
      behind. No page table is ever freed. */
  lemma {:induction false} RunOrphans(states: seq<State>, calls: seq<Call>)
    requires IsRun(states, calls)
    ensures Orphans(states[|calls|]) == Orphans(states[0]) + AllLeft(calls)
    ensures Tables(states[0]) <= Tables(states[|calls|])
  {
    hide CallStep, Orphans, Tables, LeftBy;
    if calls != [] {
      var n := |calls| - 1;
      RunPrefix(states, calls);
      RunOrphans(states[..n + 1], calls[..n]);
      StepOrphans(states[n], states[n + 1], calls[n]);
    }
  }

  lemma {:induction false} NothingLeft(calls: seq<Call>)
    ensures AllLeft(calls) == {} <==> forall i | 0 <= i < |calls| :: LeftBy(calls[i]) == {}
  {
    if calls != [] {
      var n := |calls| - 1;
      NothingLeft(calls[..n]);
      forall i | 0 <= i < n ensures calls[..n][i] == calls[i] {}
    }
  }

  /** No call of the run is made in a state in which it is bound to take frames in vain. */
  ghost predicate NeverStrands(states: seq<State>, calls: seq<Call>)
    requires |states| == |calls| + 1
  {
    forall i | 0 <= i < |calls| :: !Strands(states[i], calls[i])
  }

  /** From a state without stray frames on, frames belong to nobody after a run if and only if a call of
      the run was made in such a state. */
  lemma OrphansExactly(states: seq<State>, calls: seq<Call>)
    requires IsRun(states, calls) && Orphans(states[0]) == {}
    ensures Orphans(states[|calls|]) == {} <==> NeverStrands(states, calls)
  {
    hide CallStep, Orphans, Tables, LeftBy, Strands;
    RunOrphans(states, calls);
    NothingLeft(calls);
    forall i | 0 <= i < |calls| ensures LeftBy(calls[i]) != {} <==> Strands(states[i], calls[i]) {
      assert CallStep(states[i], states[i + 1], calls[i]);
      StepOrphans(states[i], states[i + 1], calls[i]);
    }
  }

  /** A call that succeeds was not made in such a state. */
  lemma SuccessStrandsNot(w: State, w': State, call: Call)
    requires CallStep(w, w', call) && Succeeds(call)
    ensures !Strands(w, call)
  {
    hide Inv, Kept, Accounts, HandsOut, FreedBy, Balanced, Strands, Served;
  }

  lemma SucceedsNeverStrands(states: seq<State>, calls: seq<Call>)
    requires IsRun(states, calls) && forall i | 0 <= i < |calls| :: Succeeds(calls[i])
    ensures NeverStrands(states, calls)
  {
    hide CallStep, Strands;
    forall i | 0 <= i < |calls| ensures !Strands(states[i], calls[i]) {
      assert CallStep(states[i], states[i + 1], calls[i]);
      SuccessStrandsNot(states[i], states[i + 1], calls[i]);
    }
  }

  /** Until then, and in particular as long as no call fails, every used frame is reserved at boot, a
      page table, a page on a slab list, or a page of a large block or a stack. */
  lemma NothingStray(states: seq<State>, calls: seq<Call>)
    requires IsRun(states, calls) && Inv(states[0]) && Orphans(states[0]) == {} && NeverStrands(states, calls)
    ensures Inv(states[|calls|])
    ensures states[|calls|].used
         == states[|calls|].v.boot + TableFrames(states[|calls|]) + SlabFrames(states[|calls|])
            + LargeFrames(states[|calls|]) + StackFrames(states[|calls|])
  {
    OrphansExactly(states, calls);
    RunInv(states, calls);
    hide Inv;
    FramesPartitioned(states[|calls|]);
  }

  lemma RunInv(states: seq<State>, calls: seq<Call>)
    requires IsRun(states, calls) && Inv(states[0])
    ensures Inv(states[|calls|])
  {
    if calls != [] {
      assert CallStep(states[|calls| - 1], states[|calls| - 1 + 1], calls[|calls| - 1]);
    }
  }

  /** The blocks that the calls free or write. */
  ghost function AllTouched(states: seq<State>, calls: seq<Call>): set<Block>
    requires IsRun(states, calls)
  {
    if calls == [] then {}
    else
      RunPrefix(states, calls);
      AllTouched(states[..|calls|], calls[..|calls| - 1]) + Touched(states[|calls| - 1], calls[|calls| - 1])
  }

  /** Over every run all other blocks, and the frames reserved at boot, stay as they were. */
  lemma {:induction false} RunKeeps(states: seq<State>, calls: seq<Call>)
    requires IsRun(states, calls) && Inv(states[0])
    ensures Kept(states[0], states[|calls|], AllTouched(states, calls))
  {
    hide Kept, Inv, Accounts, HandsOut, Balanced, Strands, Served;
    if calls == [] {
      KeptRefl(states[0]);
    } else {
      var n := |calls| - 1;
      RunPrefix(states, calls);
      RunKeeps(states[..n + 1], calls[..n]);
      KeptTrans(states[0], states[n], states[n + 1], AllTouched(states[..n + 1], calls[..n]),
                Touched(states[n], calls[n]));
    }
  }

  /** What the program has stored in a block it still reads there after any run of calls that neither
      free nor write the block. */
  lemma RunReads(states: seq<State>, calls: seq<Call>, x: Block, k: nat, v: Word)
    requires IsRun(states, calls) && Inv(states[0]) && LiveBlock(states[0], x) && x !in AllTouched(states, calls)
    requires k < SizeWords(states[0], x) && Reads(states[0], PtrOf(x) + 4 * k, v)
    ensures LiveBlock(states[|calls|], x) && Reads(states[|calls|], PtrOf(x) + 4 * k, v)
  {
    hide Kept, Inv, Reads, SizeWords, CallStep;
    RunKeeps(states, calls);
    RunInv(states, calls);
    KeptReadsSame(states[0], states[|calls|], AllTouched(states, calls), x, k, v);
  }

  /** Call i frees the block. */
  ghost predicate EndedAt(states: seq<State>, calls: seq<Call>, i: nat, x: Block)
    requires |states| == |calls| + 1
  {
    i < |calls| && Permitted(states[i], calls[i]) && x in Ended(states[i], calls[i])
  }

  /** Call i hands the block out. */
  ghost predicate BegunAt(states: seq<State>, calls: seq<Call>, i: nat, x: Block)
    requires |states| == |calls| + 1
  {
    i < |calls| && x in Begun(states[i], states[i + 1], calls[i])
  }

  /** No call from the given one on frees the block. */
  ghost predicate NotEndedFrom(states: seq<State>, calls: seq<Call>, i: nat, x: Block)
    requires |states| == |calls| + 1
  {
    forall j | i <= j < |calls| :: !EndedAt(states, calls, j, x)
  }

  /** Call i hands the block out and none after it frees it. */
  ghost predicate KeptFrom(states: seq<State>, calls: seq<Call>, i: nat, x: Block)
    requires |states| == |calls| + 1
  {
    i < |calls| && BegunAt(states, calls, i, x) && NotEndedFrom(states, calls, i + 1, x)
  }

  /** The block was there at the start, or handed out, and not freed since. */
  ghost predicate Outstanding(states: seq<State>, calls: seq<Call>, x: Block)
    requires |states| == |calls| + 1
  {
    || (LiveBlock(states[0], x) && NotEndedFrom(states, calls, 0, x))
    || (exists i: nat :: KeptFrom(states, calls, i, x))
  }

  lemma StepLive(w: State, w': State, call: Call, x: Block)
    requires CallStep(w, w', call)
    ensures Permitted(w, call)
    ensures LiveBlock(w', x) <==> (LiveBlock(w, x) && x !in Ended(w, call)) || x in Begun(w, w', call)
    ensures x in Begun(w, w', call) ==> !LiveBlock(w, x)
  {
    hide Inv, Kept, Accounts, HandsOut, FreedBy, Strands, Served, LiveBlocks, LiveBlock, Ended, Begun, Permitted;
    LiveBlocksAre(w);
    LiveBlocksAre(w');
  }

  /** The last call aside, the same calls freed and handed out the same. */
  lemma PrefixSame(states: seq<State>, calls: seq<Call>, i: nat, x: Block)
    requires |states| == |calls| + 1 && i < |calls| - 1
    ensures EndedAt(states[..|calls|], calls[..|calls| - 1], i, x) <==> EndedAt(states, calls, i, x)
    ensures BegunAt(states[..|calls|], calls[..|calls| - 1], i, x) <==> BegunAt(states, calls, i, x)
  {
    hide Permitted, Ended, Begun;
  }

  lemma NotEndedLast(states: seq<State>, calls: seq<Call>, i: nat, x: Block)
    requires |states| == |calls| + 1 && i < |calls|
    ensures NotEndedFrom(states, calls, i, x) <==>
              && NotEndedFrom(states[..|calls|], calls[..|calls| - 1], i, x)
              && !EndedAt(states, calls, |calls| - 1, x)
  {
    hide EndedAt, BegunAt;
    var n := |calls| - 1;
    var s0, c0 := states[..n + 1], calls[..n];
    if NotEndedFrom(states, calls, i, x) {
      assert !EndedAt(states, calls, n, x);
      forall j | i <= j < n ensures !EndedAt(s0, c0, j, x) {
        PrefixSame(states, calls, j, x);
        assert !EndedAt(states, calls, j, x);
      }
    }
    if NotEndedFrom(s0, c0, i, x) && !EndedAt(states, calls, n, x) {
      forall j | i <= j < n + 1 ensures !EndedAt(states, calls, j, x) {
        if j < n {
          PrefixSame(states, calls, j, x);
          assert !EndedAt(s0, c0, j, x);
        }
      }
    }
  }

  lemma KeptFromLast(states: seq<State>, calls: seq<Call>, i: nat, x: Block)
    requires |states| == |calls| + 1 && calls != []
    ensures KeptFrom(states, calls, i, x) <==>
              if i == |calls| - 1 then BegunAt(states, calls, i, x)
              else KeptFrom(states[..|calls|], calls[..|calls| - 1], i, x) && !EndedAt(states, calls, |calls| - 1, x)
  {
    hide EndedAt, BegunAt;
    if i < |calls| - 1 {
      PrefixSame(states, calls, i, x);
      NotEndedLast(states, calls, i + 1, x);
    }
  }

  /** The block is outstanding before the last call and not freed by it, or handed out by it. */
  lemma OutstandingLast(states: seq<State>, calls: seq<Call>, x: Block)
    requires |states| == |calls| + 1 && calls != []
    ensures Outstanding(states, calls, x) <==>
              || (Outstanding(states[..|calls|], calls[..|calls| - 1], x) && !EndedAt(states, calls, |calls| - 1, x))
              || BegunAt(states, calls, |calls| - 1, x)
  {
    hide EndedAt, BegunAt, LiveBlock, NotEndedFrom, KeptFrom;
    var n := |calls| - 1;
    var s0, c0 := states[..n + 1], calls[..n];
    NotEndedLast(states, calls, 0, x);
    forall i: nat
      ensures KeptFrom(states, calls, i, x) <==>
              if i == n then BegunAt(states, calls, i, x) else KeptFrom(s0, c0, i, x) && !EndedAt(states, calls, n, x)
    {
      KeptFromLast(states, calls, i, x);
    }
    NotKeptPast(s0, c0, n, x);
    if i: nat :| KeptFrom(s0, c0, i, x) && !EndedAt(states, calls, n, x) {
      assert KeptFrom(states, calls, i, x);
    }
    assert KeptFrom(states, calls, n, x) <==> BegunAt(states, calls, n, x);
  }

  lemma NotKeptPast(states: seq<State>, calls: seq<Call>, i: nat, x: Block)
    requires |states| == |calls| + 1 && i >= |calls|
    ensures !KeptFrom(states, calls, i, x)
  {}

  /** Over every run the live blocks are exactly those there at the start and those handed out, but for
      the ones freed since. */
  lemma {:induction false} LiveExactly(states: seq<State>, calls: seq<Call>, x: Block)
    requires IsRun(states, calls)
    ensures LiveBlock(states[|calls|], x) <==> Outstanding(states, calls, x)
  {
    hide CallStep, LiveBlock, Permitted, Ended, Begun;
    if calls == [] {
    } else {
      var n := |calls| - 1;
      RunPrefix(states, calls);
      LiveExactly(states[..n + 1], calls[..n], x);
      StepLive(states[n], states[n + 1], calls[n], x);
      OutstandingLast(states, calls, x);
    }
  }

  /** Every block there at the start, and every block handed out, is freed by a later call. */
  ghost predicate AllFreed(states: seq<State>, calls: seq<Call>)
    requires |states| == |calls| + 1
  {
    && (forall x | LiveBlock(states[0], x) :: !NotEndedFrom(states, calls, 0, x))
    && (forall i: nat, x :: !KeptFrom(states, calls, i, x))
  }

  /** When no call of a run took frames in vain and every block handed out was freed again, exactly the
      frames reserved at boot and the page tables are used: nothing has leaked. */
  lemma NothingLeaks(states: seq<State>, calls: seq<Call>)
    requires IsRun(states, calls) && Inv(states[0]) && Orphans(states[0]) == {} && NeverStrands(states, calls)
    requires AllFreed(states, calls)
    ensures states[|calls|].dir < FRAME_COUNT
    ensures states[|calls|].used == states[0].v.boot + TableFrames(states[|calls|])
  {
    forall x ensures !LiveBlock(states[|calls|], x) {
      hide LiveBlock, NotEndedFrom, KeptFrom, CallStep;
      LiveExactly(states, calls, x);
    }
    hide SlabFrames, LargeFrames, StackFrames, TableFrames, CallStep, AllTouched, AllFreed, NeverStrands, LiveBlock;
    NothingStray(states, calls);
    RunKeeps(states, calls);
    NoFrames(states[|calls|]);
  }

  lemma NoFrames(w: State)
    requires Inv(w) && forall x :: !LiveBlock(w, x)
    ensures SlabFrames(w) == {} && LargeFrames(w) == {} && StackFrames(w) == {}
  {
    forall b | b in w.v.slices ensures false {
      assert LiveBlock(w, Run(b));
    }
    forall c | 0 <= c < CACHES ensures w.v.slabs[c] == [] {
      NoObject(w, c);
    }
  }

  lemma NoObject(w: State, c: nat)
    requires Inv(w) && c < CACHES && forall x :: !LiveBlock(w, x)
    ensures w.v.slabs[c] == []
  {
    hide Inv;
    forall f: nat, o: nat ensures !LiveObject(w, c, f, o) {
      assert !LiveBlock(w, Object(c, f, o));
    }
    IdleCacheEmpty(w, c);
  }
}
