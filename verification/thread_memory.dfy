/** What a thread writes to its own stack and structure: it disturbs nothing else in the memory stack,
    and the flat words that the switching of threads works on follow the paged memory. */
module ThreadMemory {
  import opened Words
  import opened Hardware
  import opened Paging
  import opened SlabPage
  import opened World
  import opened Transitions
  import opened Isolation
  import opened HeapSteps
  import opened LargeSteps
  import opened ThreadSteps
  import opened ThreadPlaces
  import Flat = ContextSwitch

  ghost predicate HasStack(w: State, b: nat) {
    b in w.v.slices && b >= LARGE_END
  }

  predicate OnStack(b: nat, n: nat, a: Word) {
    b * 0x1000 <= a < (b + n) * 0x1000
  }

  /** A word of the structure but for `mem` and `stack_pages`, which record the stack. */
  predicate InStructure(thread: Word, a: Word) {
    thread <= a < thread + 32 && a != thread + 8 && a != thread + 28
  }

  /** The aligned address is on the stack at b or in its thread's structure. */
  ghost predicate OwnWord(w: State, b: nat, a: Word)
    requires HasStack(w, b)
  {
    a % 4 == 0 && (OnStack(b, |w.v.slices[b].frames|, a) || InStructure(w.v.slices[b].thread, a))
  }

  /** The blocks of the thread whose stack is at b. */
  ghost function Own(w: State, b: nat): set<Block>
    requires HasStack(w, b)
  {
    {Run(b), Object(POOL, w.v.slices[b].thread / 0x1000, w.v.slices[b].thread % 0x1000 / 4)}
  }

  /** The frame behind an address, 0 if there is none. */
  ghost function FrameAt(w: State, a: Word): (f: nat)
    ensures f < FRAME_COUNT
  {
    if w.dir < FRAME_COUNT && Walk(w.mem, w.dir, a / 0x1000).Some? then Walk(w.mem, w.dir, a / 0x1000).value else 0
  }

  ghost function ReadAt(w: State, a: Word): Word {
    w.mem[FrameAt(w, a)][a % 0x1000 / 4]
  }

  ghost function StoredAt(w: State, a: Word, v: Word): State {
    Stored(w, FrameAt(w, a), a % 0x1000 / 4, v)
  }

  lemma StackWord(w: State, b: nat, a: Word)
    requires Inv(w) && HasStack(w, b) && OnStack(b, |w.v.slices[b].frames|, a)
    ensures b <= a / 0x1000 < b + |w.v.slices[b].frames|
    ensures w.dir < FRAME_COUNT && Walk(w.mem, w.dir, a / 0x1000) == Some(w.v.slices[b].frames[a / 0x1000 - b])
    ensures FrameAt(w, a) == w.v.slices[b].frames[a / 0x1000 - b] && Owns(w, FrameAt(w, a), Page(b))
  {
    hide OwnersOk, SlabsOk, SlicesOk, Walk;
    RunPage(w, b, a / 0x1000 - b);
  }

  lemma RunPage(w: State, b: nat, q: nat)
    requires SlicesOk(w) && b in w.v.slices && q < |w.v.slices[b].frames|
    ensures w.dir < FRAME_COUNT && b + q < STACK_END && Owns(w, w.v.slices[b].frames[q], Page(b))
    ensures Walk(w.mem, w.dir, b + q) == Some(w.v.slices[b].frames[q])
  {
    assert SliceOk(w, b, w.v.slices[b]);
  }

  lemma StructureWord(w: State, b: nat, a: Word)
    requires Inv(w) && HasStack(w, b) && a % 4 == 0 && InStructure(w.v.slices[b].thread, a)
    ensures w.dir < FRAME_COUNT && Walk(w.mem, w.dir, a / 0x1000) == Some(a / 0x1000)
    ensures FrameAt(w, a) == a / 0x1000 == w.v.slices[b].thread / 0x1000 < LARGE_BASE
    ensures LiveObject(w, POOL, w.v.slices[b].thread / 0x1000, w.v.slices[b].thread % 0x1000 / 4)
    ensures 0 <= a % 0x1000 / 4 - w.v.slices[b].thread % 0x1000 / 4 < 8
    ensures a % 0x1000 / 4 - w.v.slices[b].thread % 0x1000 / 4 !in {2, 7}
  {
    hide OwnersOk, SlabsOk, SlicesOk, LiveObject;
    ThreadFound(w, b);
    UsedFrames(w);
    StructureOffset(w.v.slices[b].thread, a);
  }

  lemma StructureOffset(thread: Word, a: Word)
    requires thread % 4 == 0 && thread % 0x1000 / 4 + 8 <= 1024 && a % 4 == 0 && InStructure(thread, a)
    ensures a / 0x1000 == thread / 0x1000
    ensures 0 <= a % 0x1000 / 4 - thread % 0x1000 / 4 < 8 && a % 0x1000 / 4 - thread % 0x1000 / 4 !in {2, 7}
  {}

  /** A store to a word of a thread's structure that does not record its stack. */
  lemma FieldStored(w: State, f: nat, o: nat, k: nat, v: Word)
    requires Inv(w) && LiveObject(w, POOL, f, o) && f < FRAME_COUNT && o + 8 <= 1024 && k < 8 && k !in {2, 7}
    ensures Inv(Stored(w, f, o + k, v)) && Kept(w, Stored(w, f, o + k, v), {Object(POOL, f, o)})
  {
    hide OwnersOk, SlabsOk, SliceOk, LiveObject;
    var w' := Stored(w, f, o + k, v);
    FieldStep(w, w', f, o, w.mem[f][o + k := v]);
    forall b | b in w.v.slices ensures SliceOk(w', b, w.v.slices[b]) {
      FieldSlice(w, w', f, o, k, v, b);
    }
  }

  lemma FieldStep(w: State, w': State, f: nat, o: nat, page: Frame)
    requires Inv(w) && LiveObject(w, POOL, f, o) && f < FRAME_COUNT && w' == w.(mem := w.mem[f := page])
    requires forall k | 0 <= k < 1024 && !(o <= k < o + 8) :: page[k] == w.mem[f][k]
    ensures OwnersOk(w') && SlabsOk(w') && Kept(w, w', {Object(POOL, f, o)})
    ensures forall p | 0 <= p < FRAME_COUNT :: Walk(w'.mem, w.dir, p) == Walk(w.mem, w.dir, p)
  {
    hide TablesOwned, BootOwned, BootExactly, TablesOk, SlicesOk;
    LivePage(w, POOL, f, o);
    assert SlabChanged(w, f, page, w.v.free[f]) == w';
    RewrittenChange(w, f, o, page);
    SlabChangedSlabs(w, POOL, f, page, w.v.free[f], o);
    SteadyOwners(w, w');
    FieldKept(w, w', f, o, page);
  }

  lemma FieldKept(w: State, w': State, f: nat, o: nat, page: Frame)
    requires OwnersOk(w) && SlicesOk(w) && f < FRAME_COUNT && f in w.v.free
               && ChangeOk(w, POOL, f, page, w.v.free[f], o)
    requires w' == SlabChanged(w, f, page, w.v.free[f])
    ensures Kept(w, w', {Object(POOL, f, o)})
  {
    FramesKept(w, w', {Object(POOL, f, o)});
  }

  lemma FieldSlice(w: State, w': State, f: nat, o: nat, k: nat, v: Word, b: nat)
    requires b in w.v.slices && SliceOk(w, b, w.v.slices[b])
    requires LiveObject(w, POOL, f, o) && f < FRAME_COUNT && o + 8 <= 1024 && k < 8 && k !in {2, 7}
    requires w' == Stored(w, f, o + k, v)
    requires forall p | 0 <= p < FRAME_COUNT :: Walk(w'.mem, w.dir, p) == Walk(w.mem, w.dir, p)
    ensures SliceOk(w', b, w.v.slices[b])
  {
    var s := w.v.slices[b];
    assert Owns(w, s.frames[0], Page(b));
    if b >= LARGE_END {
      FieldThread(w, w', f, o, k, v, b, |s.frames|, s.thread);
    }
  }

  lemma FieldThread(w: State, w': State, f: nat, o: nat, k: nat, v: Word, b: nat, n: nat, thread: Word)
    requires ThreadOk(w, b, n, thread)
    requires LiveObject(w, POOL, f, o) && f < FRAME_COUNT && o + 8 <= 1024 && k < 8 && k !in {2, 7}
    requires w' == Stored(w, f, o + k, v)
    ensures ThreadOk(w', b, n, thread)
  {
    var g, p := thread / 0x1000, thread % 0x1000 / 4;
    if g == f {
      if p < o {
        ObjectsDisjoint(8, p, o);
      } else if o < p {
        ObjectsDisjoint(8, o, p);
      }
    }
  }

  /** A thread's store to a word of its own keeps the invariant and all blocks but its own. */
  lemma OwnStored(w: State, b: nat, a: Word, v: Word)
    requires Inv(w) && HasStack(w, b) && OwnWord(w, b, a)
    ensures Inv(StoredAt(w, a, v)) && Kept(w, StoredAt(w, a, v), Own(w, b))
    ensures StoredAt(w, a, v) == w.(mem := StoredAt(w, a, v).mem)
  {
    hide Inv, Kept, ThreadOk, LiveObject, Owns;
    var t := w.v.slices[b].thread;
    if OnStack(b, |w.v.slices[b].frames|, a) {
      StackWord(w, b, a);
      StoredInRun(w, b, a / 0x1000 - b, a % 0x1000 / 4, v);
      KeptWider(w, StoredAt(w, a, v), {Run(b)}, Own(w, b));
    } else {
      StructureWord(w, b, a);
      ThreadFound(w, b);
      FieldStored(w, t / 0x1000, t % 0x1000 / 4, a % 0x1000 / 4 - t % 0x1000 / 4, v);
      KeptWider(w, StoredAt(w, a, v), {Object(POOL, t / 0x1000, t % 0x1000 / 4)}, Own(w, b));
    }
  }

  lemma KeptWider(w: State, w': State, s: set<Block>, t: set<Block>)
    requires Kept(w, w', s) && s <= t
    ensures Kept(w, w', t)
  {}

  /** The frame behind a thread's word is used for what the word is, and is no paging structure. */
  lemma OwnFrame(w: State, b: nat, a: Word)
    requires Inv(w) && HasStack(w, b) && OwnWord(w, b, a)
    ensures w.dir < FRAME_COUNT && Walk(w.mem, w.dir, a / 0x1000) == Some(FrameAt(w, a))
    ensures Owns(w, FrameAt(w, a), if OnStack(b, |w.v.slices[b].frames|, a) then Page(b) else Slab(POOL))
    ensures !IsTable(w.mem, w.dir, FrameAt(w, a))
  {
    hide SlabsOk, SlicesOk, TablesOwned, BootOwned, TablesOk;
    if OnStack(b, |w.v.slices[b].frames|, a) {
      StackWord(w, b, a);
    } else {
      StructureWord(w, b, a);
    }
    InUseIsNoTable(w, FrameAt(w, a));
  }

  /** Different words of threads with stacks are different words of memory. */
  lemma OwnWordsApart(w: State, b: nat, a: Word, b': nat, a': Word)
    requires Inv(w) && HasStack(w, b) && HasStack(w, b') && OwnWord(w, b, a) && OwnWord(w, b', a')
    requires FrameAt(w, a) == FrameAt(w, a') && a % 0x1000 / 4 == a' % 0x1000 / 4
    ensures a == a'
  {
    hide Inv, FrameAt, LiveObject;
    OwnFrame(w, b, a);
    OwnFrame(w, b', a');
    assert OnStack(b, |w.v.slices[b].frames|, a) <==> OnStack(b', |w.v.slices[b'].frames|, a');
    if OnStack(b, |w.v.slices[b].frames|, a) {
      StackPage(w, b, a, a');
    } else {
      StructureWord(w, b, a);
      StructureWord(w, b', a');
    }
    SameAddress(a, a');
  }

  /** A stack's pages have different frames. */
  lemma StackPage(w: State, b: nat, a: Word, a': Word)
    requires Inv(w) && HasStack(w, b) && FrameAt(w, a) == FrameAt(w, a')
    requires OnStack(b, |w.v.slices[b].frames|, a) && OnStack(b, |w.v.slices[b].frames|, a')
    ensures a / 0x1000 == a' / 0x1000
  {
    hide OwnersOk, SlabsOk, SlicesOk, FrameAt;
    StackWord(w, b, a);
    StackWord(w, b, a');
    StackFramesDistinct(w, b);
  }

  lemma SameAddress(a: Word, a': Word)
    requires a % 4 == 0 && a' % 4 == 0 && a / 0x1000 == a' / 0x1000 && a % 0x1000 / 4 == a' % 0x1000 / 4
    ensures a == a'
  {}

  lemma StackFramesDistinct(w: State, b: nat)
    requires SlicesOk(w) && b in w.v.slices
    ensures Distinct(w.v.slices[b].frames)
  {
    assert SliceOk(w, b, w.v.slices[b]);
  }

  /** No word belongs to two threads with stacks. */
  lemma OwnerOnce(w: State, b: nat, b': nat, a: Word)
    requires Inv(w) && HasStack(w, b) && HasStack(w, b') && OwnWord(w, b, a) && OwnWord(w, b', a)
    ensures b' == b
  {
    hide SlabsOk, OwnersOk, FrameAt;
    OwnFrame(w, b, a);
    OwnFrame(w, b', a);
    if !OnStack(b, |w.v.slices[b].frames|, a) {
      StructureWord(w, b, a);
      StructureWord(w, b', a);
      SameStructure(w, b, b');
    }
  }

  /** Structures in one frame that share a word are one. */
  lemma SameStructure(w: State, b: nat, b': nat)
    requires Inv(w) && HasStack(w, b) && HasStack(w, b')
    requires w.v.slices[b].thread / 0x1000 == w.v.slices[b'].thread / 0x1000
    requires -8 < w.v.slices[b].thread % 0x1000 / 4 - w.v.slices[b'].thread % 0x1000 / 4 < 8
    ensures b' == b
  {
    hide OwnersOk, SlabsOk, SlicesOk;
    var t, t' := w.v.slices[b].thread, w.v.slices[b'].thread;
    ThreadFound(w, b);
    ThreadFound(w, b');
    if t % 0x1000 / 4 < t' % 0x1000 / 4 {
      ObjectsDisjoint(8, t % 0x1000 / 4, t' % 0x1000 / 4);
    } else if t' % 0x1000 / 4 < t % 0x1000 / 4 {
      ObjectsDisjoint(8, t' % 0x1000 / 4, t % 0x1000 / 4);
    }
    OneStack(w, b, b');
  }

  /** A thread with its stack at a page, or the boot thread, whose structure and stack are part of the
      kernel image. */
  datatype Party = Stacked(base: nat) | Booted

  /** An aligned word of the kernel image: of a frame reserved at boot, other than the page directory,
      that is mapped to itself. */
  ghost predicate ImageWord(w: State, a: Word) {
    && a % 4 == 0 && w.dir < FRAME_COUNT && Walk(w.mem, w.dir, a / 0x1000) == Some(a / 0x1000)
    && Owns(w, a / 0x1000, Boot) && a / 0x1000 != w.dir
  }

  ghost predicate PartyWord(w: State, t: Party, a: Word) {
    match t
    case Stacked(b) => HasStack(w, b) && OwnWord(w, b, a)
    case Booted => ImageWord(w, a)
  }

  /** The blocks of a party. */
  ghost function Holdings(w: State, t: Party): set<Block> {
    match t
    case Stacked(b) => if HasStack(w, b) then Own(w, b) else {}
    case Booted => {}
  }

  /** A store to the kernel image, the page directory excepted, disturbs nothing in the memory stack. */
  lemma ImageStored(w: State, a: Word, v: Word)
    requires Inv(w) && ImageWord(w, a)
    ensures Inv(StoredAt(w, a, v)) && Kept(w, StoredAt(w, a, v), {})
    ensures StoredAt(w, a, v) == w.(mem := StoredAt(w, a, v).mem)
  {
    hide Kept, SlabsOk, SlicesOk;
    SpareWritten(w, a / 0x1000, w.mem[a / 0x1000][a % 0x1000 / 4 := v]);
  }

  lemma PartyStored(w: State, t: Party, a: Word, v: Word)
    requires Inv(w) && PartyWord(w, t, a)
    ensures Inv(StoredAt(w, a, v)) && Kept(w, StoredAt(w, a, v), Holdings(w, t))
    ensures StoredAt(w, a, v) == w.(mem := StoredAt(w, a, v).mem)
  {
    hide Inv, Kept, StoredAt;
    match t
    case Stacked(b) => OwnStored(w, b, a, v);
    case Booted => ImageStored(w, a, v);
  }

  lemma PartyFrame(w: State, t: Party, a: Word)
    requires Inv(w) && PartyWord(w, t, a)
    ensures w.dir < FRAME_COUNT && Walk(w.mem, w.dir, a / 0x1000) == Some(FrameAt(w, a))
    ensures !IsTable(w.mem, w.dir, FrameAt(w, a))
    ensures FrameAt(w, a) in w.v.owner && (w.v.owner[FrameAt(w, a)] == Boot <==> t == Booted)
  {
    hide SlabsOk, SlicesOk, OwnWord, HasStack;
    match t
    case Stacked(b) => OwnFrame(w, b, a);
    case Booted => SpareIsNoTable(w, a / 0x1000);
  }

  /** Different words of parties are different words of memory. */
  lemma PartyWordsApart(w: State, t: Party, a: Word, t': Party, a': Word)
    requires Inv(w) && PartyWord(w, t, a) && PartyWord(w, t', a')
    requires FrameAt(w, a) == FrameAt(w, a') && a % 0x1000 / 4 == a' % 0x1000 / 4
    ensures a == a'
  {
    hide Inv, OwnWord, HasStack;
    PartyFrame(w, t, a);
    PartyFrame(w, t', a');
    if t.Stacked? {
      OwnWordsApart(w, t.base, a, t'.base, a');
    } else {
      SameAddress(a, a');
    }
  }

  /** No word belongs to two parties. */
  lemma PartyOnce(w: State, t: Party, t': Party, a: Word)
    requires Inv(w) && PartyWord(w, t, a) && PartyWord(w, t', a)
    ensures t' == t
  {
    hide Inv, OwnWord, HasStack, FrameAt;
    PartyFrame(w, t, a);
    PartyFrame(w, t', a);
    if t.Stacked? {
      OwnerOnce(w, t.base, t'.base, a);
    }
  }

  /** After a party's store exactly the word stored to reads differently among the words of all. */
  lemma PartyStoredReads(w: State, t: Party, a: Word, v: Word, t': Party, a': Word)
    requires Inv(w) && PartyWord(w, t, a) && PartyWord(w, t', a')
    ensures ReadAt(StoredAt(w, a, v), a') == if a' == a then v else ReadAt(w, a')
  {
    hide Inv, PartyWord;
    PartyFrame(w, t, a);
    assert IsTable(w.mem, w.dir, w.dir);
    StoredWalks(w, a, v);
    if a' != a && FrameAt(w, a) == FrameAt(w, a') && a % 0x1000 / 4 == a' % 0x1000 / 4 {
      PartyWordsApart(w, t, a, t', a');
    }
  }

  lemma StoredWalks(w: State, a: Word, v: Word)
    requires Inv(w) && w.dir < FRAME_COUNT && !IsTable(w.mem, w.dir, FrameAt(w, a))
    ensures forall p | 0 <= p < FRAME_COUNT :: Walk(StoredAt(w, a, v).mem, w.dir, p) == Walk(w.mem, w.dir, p)
  {
    SameTables(w.mem, StoredAt(w, a, v).mem, w.dir, w.used);
  }

  /** The flat words hold what the words of all parties read in memory. */
  ghost predicate Mirrors(w: State, m: Flat.Store) {
    forall t: Party, a: Word | PartyWord(w, t, a) :: ReadAt(w, a) == Flat.Get(m, a)
  }

  /** A stack and an `esp` field that consist of the party's own words. */
  ghost predicate PlaceOf(w: State, t: Party, p: Runs.Place) {
    Runs.PlaceOk(p) && forall a: Word | a % 4 == 0 && Runs.Holds(p, a) :: PartyWord(w, t, a)
  }

  /** The stack that a thread was created with, and its `esp` field, are such a place. */
  lemma StackPlaceOf(w: State, b: nat)
    requires Inv(w) && HasStack(w, b)
    ensures PlaceAt(b, w.v.slices[b]).Some? && PlaceOf(w, Stacked(b), PlaceAt(b, w.v.slices[b]).value)
  {
    StackPlace(w, b);
  }

  /** From w0 on the party has written some of its own words, in memory as on the flat words. */
  ghost predicate Follows(w0: State, w: State, m: Flat.Store, t: Party) {
    && Inv(w) && w == w0.(mem := w.mem) && Kept(w0, w, Holdings(w0, t)) && Mirrors(w, m)
    && forall a: Word | PartyWord(w0, t, a) :: PartyWord(w, t, a)
  }

  lemma FollowsStart(w: State, m: Flat.Store, t: Party)
    requires Inv(w) && Mirrors(w, m)
    ensures Follows(w, w, m, t)
  {
    hide Mirrors, PartyWord;
    KeptRefl(w);
    KeptWider(w, w, {}, Holdings(w, t));
  }

  lemma FollowsStep(w0: State, w: State, m: Flat.Store, t: Party, a: Word, v: Word)
    requires Follows(w0, w, m, t) && PartyWord(w0, t, a)
    ensures Follows(w0, StoredAt(w, a, v), Flat.Set(m, a, v), t)
  {
    hide Inv, Kept, StoredAt, PartyWord, Mirrors;
    PartyStored(w, t, a, v);
    SameHoldings(w0, w, t);
    KeptTrans(w0, w, StoredAt(w, a, v), Holdings(w0, t), Holdings(w0, t));
    assert Holdings(w0, t) + Holdings(w0, t) == Holdings(w0, t);
    SameParties(w, t, a, v);
    MirrorsStep(w, m, t, a, v);
  }

  lemma SameHoldings(w0: State, w: State, t: Party)
    requires w == w0.(mem := w.mem)
    ensures Holdings(w, t) == Holdings(w0, t)
  {}

  /** A store changes nobody's words. */
  lemma SameParties(w: State, t: Party, a: Word, v: Word)
    requires Inv(w) && PartyWord(w, t, a)
    ensures forall t': Party, a': Word :: PartyWord(StoredAt(w, a, v), t', a') <==> PartyWord(w, t', a')
  {
    hide Inv;
    PartyFrame(w, t, a);
    StoredWalks(w, a, v);
  }

  lemma MirrorsStep(w: State, m: Flat.Store, t: Party, a: Word, v: Word)
    requires Inv(w) && Mirrors(w, m) && PartyWord(w, t, a)
    ensures Mirrors(StoredAt(w, a, v), Flat.Set(m, a, v))
  {
    hide Inv, ReadAt, Flat.Get, Flat.Set, PartyWord, StoredAt;
    var w' := StoredAt(w, a, v);
    PartyAligned(w, t, a);
    Flat.SetGets(m, a, v);
    SameParties(w, t, a, v);
    forall t': Party, a': Word | PartyWord(w', t', a') ensures ReadAt(w', a') == Flat.Get(Flat.Set(m, a, v), a') {
      assert PartyWord(w, t', a');
      PartyAligned(w, t', a');
      PartyStoredReads(w, t, a, v, t', a');
    }
  }

  lemma PartyAligned(w: State, t: Party, a: Word)
    requires PartyWord(w, t, a)
    ensures a % 4 == 0
  {}

  /** Stores of a thread, one after the other, in memory and on the flat words. */
  ghost function AllStored(w: State, writes: seq<(Word, Word)>): State
    decreases |writes|
  {
    if writes == [] then w else AllStored(StoredAt(w, writes[0].0, writes[0].1), writes[1..])
  }

  function AllSet(m: Flat.Store, writes: seq<(Word, Word)>): Flat.Store
    decreases |writes|
  {
    if writes == [] then m else AllSet(Flat.Set(m, writes[0].0, writes[0].1), writes[1..])
  }

  /** Whatever a party writes to its own words, the memory stack's invariant holds, the blocks of others
      are as they were, and the flat words are still those of memory. */
  lemma {:induction false} WritesFollow(w0: State, w: State, m: Flat.Store, t: Party, writes: seq<(Word, Word)>)
    requires Follows(w0, w, m, t)
    requires forall i | 0 <= i < |writes| :: PartyWord(w0, t, writes[i].0)
    ensures Follows(w0, AllStored(w, writes), AllSet(m, writes), t)
    decreases |writes|
  {
    hide Follows, PartyWord, StoredAt;
    if writes != [] {
      FollowsStep(w0, w, m, t, writes[0].0, writes[0].1);
      WritesFollow(w0, StoredAt(w, writes[0].0, writes[0].1), Flat.Set(m, writes[0].0, writes[0].1), t, writes[1..]);
    }
  }

  /** What a party writes to its own words the switching of threads allows it to write: it changes no
      other party's stack or `esp` field. */
  lemma {:induction false} WritesAllowed(w: State, m: Flat.Store, t: Party, writes: seq<(Word, Word)>, t': Party,
                                         p: Runs.Place)
    requires Inv(w) && t' != t && PlaceOf(w, t', p)
    requires forall i | 0 <= i < |writes| :: PartyWord(w, t, writes[i].0)
    ensures Runs.SameAt(m, AllSet(m, writes), p)
    decreases |writes|
  {
    hide Inv, Flat.Get, Flat.Set, PartyWord, PlaceOf;
    if writes != [] {
      var m1 := Flat.Set(m, writes[0].0, writes[0].1);
      WriteSpares(w, m, t, writes[0].0, writes[0].1, t', p);
      WritesAllowed(w, m1, t, writes[1..], t', p);
    }
  }

  lemma WriteSpares(w: State, m: Flat.Store, t: Party, a: Word, v: Word, t': Party, p: Runs.Place)
    requires Inv(w) && t' != t && PlaceOf(w, t', p) && PartyWord(w, t, a)
    ensures Runs.SameAt(m, Flat.Set(m, a, v), p)
  {
    hide Inv, Flat.Get, Flat.Set, PartyWord;
    PartyAligned(w, t, a);
    Flat.SetGets(m, a, v);
    if Runs.Holds(p, a) {
      PartyOnce(w, t, t', a);
    }
  }

  /** Memory after a switch away from a thread, in the order of the stores. */
  ghost function SwitchedIn(w: State, r: Flat.Regs, slot: Word, newEsp: Word, ret: Word): State
    requires 28 <= r.esp
  {
    var w1 := StoredAt(StoredAt(StoredAt(w, r.esp - 4, newEsp), r.esp - 8, slot), r.esp - 12, ret);
    var w2 := StoredAt(StoredAt(StoredAt(StoredAt(w1, r.esp - 16, r.ebp), r.esp - 20, r.edi), r.esp - 24, r.esi),
                       r.esp - 28, r.ebx);
    StoredAt(w2, slot, r.esp - 28)
  }

  /** A switch away from a party, the boot thread included, keeps the memory stack's invariant and the
      blocks of others, and the flat words after it are those of memory. */
  lemma SwitchFollows(w: State, c: Flat.Cpu, t: Party, p: Runs.Place, newEsp: Word, ret: Word)
    requires Inv(w) && PlaceOf(w, t, p) && Mirrors(w, c.store)
    requires c.regs.esp % 4 == 0 && p.lo + 28 <= c.regs.esp <= p.hi
    ensures Follows(w, SwitchedIn(w, c.regs, p.slot, newEsp, ret),
                    Flat.Switched(Flat.Called(c, p.slot, newEsp, ret)).store, t)
  {
    hide Follows, StoredAt, Inv, Flat.Set, Flat.Get, Mirrors, PartyWord;
    var slot, sp, r := p.slot, c.regs.esp, c.regs;
    SwitchWords(w, t, p, sp);
    FollowsStart(w, c.store, t);
    var m1, w1 := Flat.Set(c.store, sp - 4, newEsp), StoredAt(w, sp - 4, newEsp);
    FollowsStep(w, w, c.store, t, sp - 4, newEsp);
    var m2, w2 := Flat.Set(m1, sp - 8, slot), StoredAt(w1, sp - 8, slot);
    FollowsStep(w, w1, m1, t, sp - 8, slot);
    var m3, w3 := Flat.Set(m2, sp - 12, ret), StoredAt(w2, sp - 12, ret);
    FollowsStep(w, w2, m2, t, sp - 12, ret);
    var m4, w4 := Flat.Set(m3, sp - 16, r.ebp), StoredAt(w3, sp - 16, r.ebp);
    FollowsStep(w, w3, m3, t, sp - 16, r.ebp);
    var m5, w5 := Flat.Set(m4, sp - 20, r.edi), StoredAt(w4, sp - 20, r.edi);
    FollowsStep(w, w4, m4, t, sp - 20, r.edi);
    var m6, w6 := Flat.Set(m5, sp - 24, r.esi), StoredAt(w5, sp - 24, r.esi);
    FollowsStep(w, w5, m5, t, sp - 24, r.esi);
    var m7, w7 := Flat.Set(m6, sp - 28, r.ebx), StoredAt(w6, sp - 28, r.ebx);
    FollowsStep(w, w6, m6, t, sp - 28, r.ebx);
    FollowsStep(w, w7, m7, t, slot, sp - 28);
    Flat.SwitchStores(c, slot, newEsp, ret);
  }

  lemma SwitchWords(w: State, t: Party, p: Runs.Place, sp: Word)
    requires PlaceOf(w, t, p) && sp % 4 == 0 && p.lo + 28 <= sp <= p.hi
    ensures forall k | 1 <= k <= 7 :: sp >= 4 * k && PartyWord(w, t, sp - 4 * k)
    ensures PartyWord(w, t, p.slot) && p.slot % 4 == 0 && !(sp - 28 <= p.slot < sp)
  {
    hide PartyWord;
  }
}
