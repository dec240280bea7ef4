/** What the invariant says in one breath: who owns the frames, what is in a slab, where the
    virtual runs lie. */
module Ownership {
  import opened Words
  import opened Hardware
  import opened Paging
  import opened SlabPage
  import opened World
  import opened Transitions
  import opened Slices
  import opened HeapSteps

  /** The frames of the page tables in the directory. */
  ghost function TableFrames(w: State): set<nat>
    requires w.dir < FRAME_COUNT
  {
    set i | 0 <= i < 1023 && HasTable(w.mem, w.dir, i) :: TableOf(w.mem, w.dir, i)
  }

  /** The frames on the slab lists. */
  ghost function SlabFrames(w: State): set<nat>
    requires |w.v.slabs| == CACHES
  {
    set c, f | 0 <= c < CACHES && f in w.v.slabs[c] :: f
  }

  /** The frames of the large blocks. */
  ghost function LargeFrames(w: State): set<nat> {
    set b, f | b in w.v.slices && b < LARGE_END && f in w.v.slices[b].frames :: f
  }

  /** The frames of the thread stacks. */
  ghost function StackFrames(w: State): set<nat> {
    set b, f | b in w.v.slices && b >= LARGE_END && f in w.v.slices[b].frames :: f
  }

  lemma TableFramesOwned(w: State)
    requires OwnersOk(w)
    ensures forall f :: f in TableFrames(w) <==> f in w.v.owner && w.v.owner[f].Table?
  {}

  lemma SlabFramesOwned(w: State)
    requires SlabsOk(w)
    ensures forall f :: f in SlabFrames(w) <==> f in w.v.owner && w.v.owner[f].Slab?
  {
    forall f | f in SlabFrames(w) ensures f in w.v.owner && w.v.owner[f].Slab? {
      var c :| 0 <= c < CACHES && f in w.v.slabs[c];
      assert ListOk(w, c);
      var i :| 0 <= i < |w.v.slabs[c]| && w.v.slabs[c][i] == f;
      assert Owns(w, w.v.slabs[c][i], Slab(c));
    }
    forall f | f in w.v.owner && w.v.owner[f].Slab? ensures f in SlabFrames(w) {
      assert SlabOk(w, f, w.v.owner[f].cache);
    }
  }

  lemma SliceFramesOwned(w: State)
    requires SlicesOk(w)
    ensures forall f :: f in LargeFrames(w) <==> f in w.v.owner && w.v.owner[f].Page? && w.v.owner[f].base < LARGE_END
    ensures forall f :: f in StackFrames(w) <==> f in w.v.owner && w.v.owner[f].Page? && w.v.owner[f].base >= LARGE_END
  {
    forall b | b in w.v.slices ensures forall f | f in w.v.slices[b].frames :: Owns(w, f, Page(b)) {
      SliceFrames(w, b);
    }
    forall f | f in w.v.owner && w.v.owner[f].Page? ensures f in w.v.slices[w.v.owner[f].base].frames {
      assert w.v.owner[f].base in w.v.slices;
    }
  }

  /** Frame ownership: the frames marked used are exactly the boot-reserved ones, the page tables,
      the slab pages, the large blocks, the thread stacks and the orphans, without overlap. */
  lemma FramesPartitioned(w: State)
    requires Inv(w)
    ensures w.used
         == w.v.boot + TableFrames(w) + SlabFrames(w) + LargeFrames(w) + StackFrames(w) + Orphans(w)
    ensures w.v.boot !! TableFrames(w) !! SlabFrames(w) !! LargeFrames(w) !! StackFrames(w) !! Orphans(w)
  {
    TableFramesOwned(w);
    SlabFramesOwned(w);
    SliceFramesOwned(w);
    hide TableFrames, SlabFrames, LargeFrames, StackFrames, SlabsOk, SlicesOk, TablesOwned, BootOwned;
    forall f
      ensures f in w.used <==>
              f in w.v.boot + TableFrames(w) + SlabFrames(w) + LargeFrames(w) + StackFrames(w) + Orphans(w)
    {
      if f in w.used {
        assert f in w.v.owner;
      }
    }
  }

  /** Nor is a frame used twice within its kind: for two directory slots, on two slab lists, or in
      two runs of pages. */
  lemma FramesUsedOnce(w: State)
    requires Inv(w)
    ensures forall i, j | 0 <= i < j < 1023 && HasTable(w.mem, w.dir, i) && HasTable(w.mem, w.dir, j) ::
              TableOf(w.mem, w.dir, i) != TableOf(w.mem, w.dir, j)
    ensures forall c, d | 0 <= c < d < CACHES :: ToSet(w.v.slabs[c]) !! ToSet(w.v.slabs[d])
    ensures forall b, b' | b in w.v.slices && b' in w.v.slices && b != b' ::
              ToSet(w.v.slices[b].frames) !! ToSet(w.v.slices[b'].frames)
  {
    forall i, j | 0 <= i < j < 1023 && HasTable(w.mem, w.dir, i) && HasTable(w.mem, w.dir, j)
      ensures TableOf(w.mem, w.dir, i) != TableOf(w.mem, w.dir, j)
    {
      assert w.v.owner[TableOf(w.mem, w.dir, i)] == Table(i);
    }
    forall c, d | 0 <= c < d < CACHES ensures ToSet(w.v.slabs[c]) !! ToSet(w.v.slabs[d]) {
      ListFrames(w, c);
      ListFrames(w, d);
    }
    forall b, b' | b in w.v.slices && b' in w.v.slices && b != b'
      ensures ToSet(w.v.slices[b].frames) !! ToSet(w.v.slices[b'].frames)
    {
      SliceFrames(w, b);
      SliceFrames(w, b');
    }
  }

  lemma ListFrames(w: State, c: nat)
    requires SlabsOk(w) && c < CACHES
    ensures forall f | f in w.v.slabs[c] :: Owns(w, f, Slab(c))
  {
    assert ListOk(w, c);
    forall f | f in w.v.slabs[c] ensures Owns(w, f, Slab(c)) {
      var i :| 0 <= i < |w.v.slabs[c]| && w.v.slabs[c][i] == f;
      assert Owns(w, w.v.slabs[c][i], Slab(c));
    }
  }

  /** The live objects of slab f of cache c. */
  ghost function LiveIn(w: State, c: nat, f: nat): set<nat>
    requires c < CACHES && f in w.v.free
  {
    LiveObjects(ObjectWords(c), w.v.free[f])
  }

  /** Every listed slab: live and free objects add up to the capacity, the counter in the header is
      the length of the acyclic free list, and at least one object is live. */
  lemma SlabBalance(w: State, c: nat, f: nat)
    requires Inv(w) && c < CACHES && f in w.v.slabs[c]
    ensures f in w.v.free && f < FRAME_COUNT && Distinct(w.v.free[f])
    ensures w.mem[f][FREE_COUNT] == |w.v.free[f]| && w.mem[f][CAPACITY] == Capacity(ObjectWords(c))
    ensures |LiveIn(w, c, f)| + |w.v.free[f]| == Capacity(ObjectWords(c)) && LiveIn(w, c, f) != {}
    ensures forall o :: o in LiveIn(w, c, f) <==> LiveObject(w, c, f, o)
  {
    ListFrames(w, c);
    assert SlabOk(w, f, c);
    LivePlusFree(w.mem[f], f, w.caches[c], ObjectWords(c), w.v.free[f]);
  }

  /** A cache without a live object has no slab. */
  lemma IdleCacheEmpty(w: State, c: nat)
    requires Inv(w) && c < CACHES
    ensures w.v.slabs[c] == [] <==> forall f: nat, o: nat :: !LiveObject(w, c, f, o)
    ensures w.v.slabs[c] == [] <==> w.heads[c] == 0
  {
    assert ListOk(w, c);
    if w.v.slabs[c] != [] {
      var f := w.v.slabs[c][0];
      SlabBalance(w, c, f);
      var o :| o in LiveIn(w, c, f);
      assert LiveObject(w, c, f, o);
      ListedSlab(w, c, 0);
    }
  }

  /** A run of pages lies in its region; the page after a stack is not mapped. */
  lemma RunPlaced(w: State, b: nat)
    requires Inv(w) && b in w.v.slices
    ensures |w.v.slices[b].frames| > 0
    ensures b < LARGE_END ==> LARGE_BASE <= b && b + |w.v.slices[b].frames| <= LARGE_END
    ensures b >= LARGE_END ==>
              && STACK_BASE <= b && b + |w.v.slices[b].frames| + 1 <= STACK_END && w.dir < FRAME_COUNT
              && Walk(w.mem, w.dir, b + |w.v.slices[b].frames|) == None
  {
    SlicePlaced(w, b);
    assert SliceOk(w, b, w.v.slices[b]);
  }

  /** No two runs of pages overlap, nor does a run contain the guard page of a stack. */
  lemma RunsApart(w: State, b: nat, b': nat)
    requires Inv(w) && b in w.v.slices && b' in w.v.slices && b < b'
    ensures b + |w.v.slices[b].frames| <= b'
    ensures b < LARGE_END ==> LARGE_BASE <= b && b + |w.v.slices[b].frames| <= LARGE_END
    ensures b >= LARGE_END ==>
              && STACK_BASE <= b && b + |w.v.slices[b].frames| + 1 <= b'
              && b' + |w.v.slices[b'].frames| + 1 <= STACK_END
              && Walk(w.mem, w.dir, b + |w.v.slices[b].frames|) == None
  {
    hide OwnersOk, SlabsOk, SliceOk;
    RunPlaced(w, b);
    RunPlaced(w, b');
    assert SliceEnd(b, |w.v.slices[b].frames|) <= b';
  }
}
