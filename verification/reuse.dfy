/** Freeing a small block and asking for its size again gives the same block. */
module Reuse {
  import opened Words
  import opened Pmm
  import opened Paging
  import opened SlabPage
  import opened World
  import opened Transitions
  import opened HeapSteps

  /** A block taken from a slab that stays on the list and put back: nothing is left of it. */
  lemma OpenUndone(w0: State, w1: State, w2: State, c: nat, f: nat, o: nat)
    requires Inv(w0) && Inv(w1) && c < CACHES && Owns(w0, f, Slab(c)) && f < FRAME_COUNT
    requires w0.mem[f][FREE_COUNT] > 0 && f in w0.v.free && w0.v.free[f] != [] && w0.v.free[f][0] == o < 1024
    requires w1 == TakenFrom(w0, f) && LiveObject(w1, c, f, o) && FreeStep(w1, w2, c, f, o)
    ensures w2 == w0
  {
    OpenWords(w0, c, f);
    hide Inv, Taken, Put;
    assert w1.mem[f] == Taken(w0.mem[f]) && w1.v.free[f] == w0.v.free[f][1..];
    assert w2.mem == w0.mem;
    assert w2.v.free == w0.v.free;
  }

  /** The page's words and its free list are as before. */
  lemma OpenWords(w: State, c: nat, f: nat)
    requires SlabsOk(w) && c < CACHES && Owns(w, f, Slab(c)) && f < FRAME_COUNT
    requires w.mem[f][FREE_COUNT] > 0 && f in w.v.free && w.v.free[f] != [] && w.v.free[f][0] < 1024
    ensures Taken(w.mem[f])[FREE_COUNT] < 0xFFFF_FFFF && Put(Taken(w.mem[f]), f, w.v.free[f][0]) == w.mem[f]
    ensures [w.v.free[f][0]] + w.v.free[f][1..] == w.v.free[f] && |w.v.free[f]| < Capacity(ObjectWords(c))
  {
    assert SlabOk(w, f, c);
    PutUndoesTake(w.mem[f], f, w.caches[c], ObjectWords(c), w.v.free[f]);
  }

  lemma {:induction false} FirstOpenSame(list: seq<nat>, free: map<nat, seq<nat>>, free': map<nat, seq<nat>>, i: nat)
    requires i <= |list|
    requires forall f | f in list :: (f in free <==> f in free') && (f in free ==> free[f] == free'[f])
    ensures FirstOpen(list, free', i) == FirstOpen(list, free, i)
    decreases |list| - i
  {
    if i < |list| {
      FirstOpenSame(list, free, free', i + 1);
    }
  }

  /** A slab made for one block and returned with it: its list is as before, its frame is the lowest
      free one again, and now there is a table for its page. */
  lemma FreshUndone(w0: State, w1: State, w2: State, c: nat, f: nat)
    requires Inv(w0) && Inv(w1) && c < CACHES && w0.dir < FRAME_COUNT && f < LARGE_BASE
    requires FreshSlab(w0, w1, c, f) && SlabReturned(w1, w2, c, f) && w1.dir == w0.dir
    requires FirstOpen(w0.v.slabs[c], w0.v.free, 0) == |w0.v.slabs[c]|
    ensures w2.dir == w0.dir && c < |w2.v.slabs|
    ensures w2.v.slabs[c] == w0.v.slabs[c] && FirstOpen(w2.v.slabs[c], w2.v.free, 0) == |w2.v.slabs[c]|
    ensures !AllUsed(w2.used) && Lowest(w2.used) == f && HasTable(w2.mem, w2.dir, f / 1024)
  {
    FreshListBack(w0, w1, w2, c, f);
    FrameLowestAgain(w0, w1, w2, f);
  }

  lemma FreshListBack(w0: State, w1: State, w2: State, c: nat, f: nat)
    requires ShapeOk(w0) && ShapeOk(w1) && c < CACHES && f < LARGE_BASE && ListOk(w1, c)
    requires FreshSlab(w0, w1, c, f) && SlabReturned(w1, w2, c, f)
    requires FirstOpen(w0.v.slabs[c], w0.v.free, 0) == |w0.v.slabs[c]|
    ensures c < |w2.v.slabs|
    ensures w2.v.slabs[c] == w0.v.slabs[c] && FirstOpen(w2.v.slabs[c], w2.v.free, 0) == |w2.v.slabs[c]|
  {
    hide TookFrame, SameSlices, Built, ChainedAt, FirstOpen;
    var list, list1 := w0.v.slabs[c], w1.v.slabs[c];
    assert Distinct(list1) && list1 == [f] + list;
    var i :| 0 <= i < |list1| && list1[i] == f && w2.v.slabs == w1.v.slabs[c := RemoveAt(list1, i)];
    HeadTaken(list, f, i);
    FreeListsBack(list, w0.v.free, w1.v.free, w2.v.free, f, Built(ObjectWords(c), Capacity(ObjectWords(c)))[1..]);
    FirstOpenSame(list, w0.v.free, w2.v.free, 0);
  }

  lemma FreeListsBack(list: seq<nat>, free0: map<nat, seq<nat>>, free1: map<nat, seq<nat>>,
                      free2: map<nat, seq<nat>>, f: nat, built: seq<nat>)
    requires f !in list && free1 == free0[f := built] && free2 == free1 - {f}
    ensures forall g | g in list :: (g in free0 <==> g in free2) && (g in free0 ==> free0[g] == free2[g])
  {}

  lemma HeadTaken(list: seq<nat>, f: nat, i: nat)
    requires Distinct([f] + list) && i < |[f] + list| && ([f] + list)[i] == f
    ensures f !in list && RemoveAt([f] + list, i) == list
  {
    var list1 := [f] + list;
    assert forall j | 0 <= j < |list| :: list1[j + 1] == list[j] && list1[0] != list1[j + 1];
  }

  lemma FrameLowestAgain(w0: State, w1: State, w2: State, f: nat)
    requires w0.dir < FRAME_COUNT && w1.dir < FRAME_COUNT && f < LARGE_BASE && TookFrame(w0, w1, f)
    requires w2.used == w1.used - {f} && w2.dir == w1.dir && w2.mem[w1.dir] == w1.mem[w1.dir]
    ensures !AllUsed(w2.used) && Lowest(w2.used) == f && HasTable(w2.mem, w2.dir, f / 1024)
  {}

  /** The second request gets what the first one got, whether an open slab or a fresh page served
      it. */
  lemma SameAgain(w0: State, w1: State, w2: State, w3: State, c: nat, out: Outcome, out': Outcome)
    requires Inv(w0) && Inv(w1) && Inv(w2) && c < CACHES && w1.dir < FRAME_COUNT && w3.dir < FRAME_COUNT
    requires w1.dir == w0.dir && Kept(w0, w1, {})
    requires AllocStep(w0, w1, c, out) && out.Returned? && out.ptr != 0
    requires LiveObject(w1, c, out.ptr / 0x1000, out.ptr % 0x1000 / 4) && out.ptr / 0x1000 < FRAME_COUNT
    requires FreeStep(w1, w2, c, out.ptr / 0x1000, out.ptr % 0x1000 / 4)
    requires AllocStep(w2, w3, c, out')
    ensures out' == out
  {
    var list: seq<nat> := w0.v.slabs[c];
    var k := FirstOpen(list, w0.v.free, 0);
    if k < |list| {
      ListedSlab(w0, c, k);
      OpenUndone(w0, w1, w2, c, list[k], w0.v.free[list[k]][0]);
    } else {
      var f := Lowest(w0.used);
      BuiltFull(w1, c, f);
      FreshUndone(w0, w1, w2, c, f);
    }
  }

  /** The first block of a fresh slab is its only one. */
  lemma BuiltFull(w: State, c: nat, f: nat)
    requires c < CACHES && f in w.v.free && w.v.free[f] == Built(ObjectWords(c), Capacity(ObjectWords(c)))[1..]
    ensures |w.v.free[f]| + 1 >= Capacity(ObjectWords(c))
  {}
}
