/** Steps on runs of pages: reserving a run of addresses, turning mapped frames into a large block
    or a stack, and taking one apart; and stores into allocated blocks. */
module Slices {
  import opened Words
  import opened Hardware
  import opened World
  import opened Transitions

  /** No slab, slice or unused region page is among the pages [b, end). */
  ghost predicate Vacant(w: State, b: nat, end: nat) {
    forall p | b <= p < end :: !Watched(w, p)
  }

  /** The cursor of the large region moves past n pages, which are unmapped and vacant now. */
  lemma LargeAdvanced(w: State, n: nat)
    requires Inv(w) && w.nextLarge + n <= LARGE_END
    ensures Inv(w.(nextLarge := w.nextLarge + n)) && Kept(w, w.(nextLarge := w.nextLarge + n), {})
    ensures Vacant(w.(nextLarge := w.nextLarge + n), w.nextLarge, w.nextLarge + n)
    ensures forall p | w.nextLarge <= p < w.nextLarge + n :: Walk(w.mem, w.dir, p) == None
  {
    var w' := w.(nextLarge := w.nextLarge + n);
    CursorMoved(w, w');
    forall p | w.nextLarge <= p < w.nextLarge + n ensures !Watched(w', p) {
      NotInSlices(w, p);
    }
  }

  /** The cursor of the stack region moves past n stack pages and a guard page. */
  lemma StackAdvanced(w: State, n: nat)
    requires Inv(w) && w.nextStack + n + 1 <= STACK_END
    ensures Inv(w.(nextStack := w.nextStack + n + 1)) && Kept(w, w.(nextStack := w.nextStack + n + 1), {})
    ensures Vacant(w.(nextStack := w.nextStack + n + 1), w.nextStack, w.nextStack + n + 1)
    ensures forall p | w.nextStack <= p < w.nextStack + n + 1 :: Walk(w.mem, w.dir, p) == None
  {
    var w' := w.(nextStack := w.nextStack + n + 1);
    CursorMoved(w, w');
    forall p | w.nextStack <= p < w.nextStack + n + 1 ensures !Watched(w', p) {
      NotInSlices(w, p);
    }
  }

  lemma SlabsLow(w: State)
    requires SlabsOk(w)
    ensures forall f | f in w.v.owner && w.v.owner[f].Slab? :: f < LARGE_BASE
  {}

  lemma FreshCursor(w: State)
    requires SlicesOk(w)
    ensures w.nextLarge < LARGE_END ==> w.nextLarge !in w.v.slices
    ensures w.nextStack < STACK_END ==> w.nextStack !in w.v.slices
  {}

  lemma NotInSlices(w: State, p: nat)
    requires Inv(w) && (w.nextLarge <= p < LARGE_END || w.nextStack <= p)
    ensures forall b | b in w.v.slices :: !(b <= p < SliceEnd(b, |w.v.slices[b].frames|))
    ensures !(p in w.v.owner && w.v.owner[p].Slab?)
  {
    forall b | b in w.v.slices ensures !(b <= p < SliceEnd(b, |w.v.slices[b].frames|)) {
      assert SliceOk(w, b, w.v.slices[b]);
    }
    SlabsLow(w);
  }

  lemma CursorMoved(w: State, w': State)
    requires Inv(w)
    requires w' == w.(nextLarge := w'.nextLarge, nextStack := w'.nextStack)
    requires w.nextLarge <= w'.nextLarge <= LARGE_END && w.nextStack <= w'.nextStack <= STACK_END
    ensures Inv(w') && Kept(w, w', {})
  {
    CursorKept(w, w');
    assert SlabsOk(w') by {
      forall c | 0 <= c < CACHES ensures ListOk(w', c) {
        ListSame(w, w', c);
      }
      forall g | g in w'.v.owner && w'.v.owner[g].Slab? ensures SlabOk(w', g, w'.v.owner[g].cache) {
        SlabSame(w, w', g, w.v.owner[g].cache);
      }
    }
    assert SlicesOk(w') by {
      forall b | b in w'.v.slices ensures SliceOk(w', b, w'.v.slices[b]) {
        CursorSlice(w, w', b);
      }
    }
  }

  lemma CursorKept(w: State, w': State)
    requires OwnersOk(w) && SlicesOk(w) && w'.mem == w.mem && w'.v == w.v
    ensures Kept(w, w', {})
  {
    forall x | LiveBlock(w, x) ensures LiveBlock(w', x) && SameBlock(w, w', x) {
      match x
      case Object(c, f, o) =>
      case Run(b) =>
        SliceFrames(w, b);
    }
  }

  lemma CursorSlice(w: State, w': State, b: nat)
    requires b in w.v.slices && SliceOk(w, b, w.v.slices[b])
    requires w'.mem == w.mem && w'.dir == w.dir && w'.v == w.v
    requires w.nextLarge <= w'.nextLarge <= LARGE_END && w.nextStack <= w'.nextStack <= STACK_END
    ensures SliceOk(w', b, w.v.slices[b])
  {}

  /** n distinct frames that belong to nobody are mapped at the n pages from b on. */
  ghost predicate Mounted(w: State, b: nat, frames: seq<nat>)
  {
    && w.dir < FRAME_COUNT && b + |frames| <= STACK_END && Distinct(frames)
    && (forall i | 0 <= i < |frames| ::
          frames[i] < FRAME_COUNT && Owns(w, frames[i], Orphan) && Walk(w.mem, w.dir, b + i) == Some(frames[i]))
  }

  /** The owners once the frames belong to the slice at b. */
  function Claimed(owner: map<nat, Owner>, frames: seq<nat>, b: nat): map<nat, Owner> {
    map f | f in owner :: if f in frames then Page(b) else owner[f]
  }

  function SliceAdopted(w: State, b: nat, s: Slice): State {
    w.(v := w.v.(owner := Claimed(w.v.owner, s.frames, b), slices := w.v.slices[b := s]))
  }

  ghost predicate AdoptSliceOk(w: State, b: nat, s: Slice) {
    var n := |s.frames|;
    && n > 0 && LARGE_BASE <= b && Mounted(w, b, s.frames) && Placed(w, b, n) && Vacant(w, b, SliceEnd(b, n))
    && (if b < LARGE_END then
          w.mem[s.frames[0]][0] == LARGE_MAGIC && w.mem[s.frames[0]][1] == n
        else
          Walk(w.mem, w.dir, b + n) == None && ThreadOk(w, b, n, s.thread))
  }

  lemma VacantApart(w: State, b: nat, end: nat, b': nat)
    requires Vacant(w, b, end) && b < end && b' in w.v.slices && |w.v.slices[b'].frames| > 0
    ensures b' < b ==> SliceEnd(b', |w.v.slices[b'].frames|) <= b
    ensures b' != b && (b < b' ==> end <= b')
  {
    assert !Watched(w, b);
    assert Watched(w, b');
  }

  lemma AdoptedApart(w: State, b: nat, s: Slice)
    requires Apart(w.v.slices) && |s.frames| > 0 && Vacant(w, b, SliceEnd(b, |s.frames|))
    requires forall b' | b' in w.v.slices :: |w.v.slices[b'].frames| > 0
    ensures b !in w.v.slices && Apart(w.v.slices[b := s])
  {
    assert b in w.v.slices ==> Watched(w, b);
    forall b' | b' in w.v.slices && b' != b
      ensures b' < b ==> SliceEnd(b', |w.v.slices[b'].frames|) <= b
      ensures b < b' ==> SliceEnd(b, |s.frames|) <= b'
    {
      VacantApart(w, b, SliceEnd(b, |s.frames|), b');
    }
  }

  lemma SliceAdoptedSlices(w: State, b: nat, s: Slice)
    requires SlicesOk(w) && AdoptSliceOk(w, b, s)
    ensures SlicesOk(SliceAdopted(w, b, s)) && b !in w.v.slices
  {
    var w' := SliceAdopted(w, b, s);
    forall b' | b' in w.v.slices ensures |w.v.slices[b'].frames| > 0 && SliceOk(w', b', w.v.slices[b']) {
      assert SliceOk(w, b', w.v.slices[b']);
      OrphansClaimed(w, b, s);
      SliceOwnersChanged(w, w', b');
    }
    AdoptedApart(w, b, s);
    AdoptedSlice(w, b, s);
  }

  lemma OrphansClaimed(w: State, b: nat, s: Slice)
    requires Mounted(w, b, s.frames)
    ensures forall f | f in w.v.owner && !w.v.owner[f].Orphan? :: Owns(SliceAdopted(w, b, s), f, w.v.owner[f])
    ensures forall f | f in s.frames :: Owns(SliceAdopted(w, b, s), f, Page(b))
  {
    assert forall f | f in s.frames :: Owns(w, f, Orphan);
  }

  lemma AdoptedSlice(w: State, b: nat, s: Slice)
    requires AdoptSliceOk(w, b, s)
    ensures SliceOk(SliceAdopted(w, b, s), b, s)
  {
    OrphansClaimed(w, b, s);
  }

  /** A slice does not mind other frames changing owner among orphans and slices. */
  lemma SliceOwnersChanged(w: State, w': State, b: nat)
    requires b in w.v.slices && SliceOk(w, b, w.v.slices[b])
    requires w'.mem == w.mem && w'.dir == w.dir && w'.nextLarge == w.nextLarge && w'.nextStack == w.nextStack
    requires w'.v.free == w.v.free
    requires forall f | f in w.v.owner && (w.v.owner[f] == Page(b) || w.v.owner[f].Slab?) :: Owns(w', f, w.v.owner[f])
    ensures SliceOk(w', b, w.v.slices[b])
  {
    var s := w.v.slices[b];
    forall i | 0 <= i < |s.frames| ensures Owns(w', s.frames[i], Page(b)) {
      assert Owns(w, s.frames[i], Page(b));
    }
  }

  lemma OwnersChangedSlabs(w: State, w': State)
    requires SlabsOk(w)
    requires w'.mem == w.mem && w'.dir == w.dir && w'.heads == w.heads && w'.caches == w.caches
    requires w'.v.slabs == w.v.slabs && w'.v.free == w.v.free
    requires forall f | f in w.v.owner && w.v.owner[f].Slab? :: Owns(w', f, w.v.owner[f])
    requires forall f | f in w'.v.owner && w'.v.owner[f].Slab? :: Owns(w, f, w'.v.owner[f])
    ensures SlabsOk(w')
  {
    forall c | 0 <= c < CACHES ensures ListOk(w', c) {
      ListSame(w, w', c);
    }
    forall g | g in w'.v.owner && w'.v.owner[g].Slab? ensures SlabOk(w', g, w'.v.owner[g].cache) {
      SlabSame(w, w', g, w.v.owner[g].cache);
    }
  }

  lemma SliceAdoptedInv(w: State, b: nat, s: Slice)
    requires Inv(w) && AdoptSliceOk(w, b, s)
    ensures Inv(SliceAdopted(w, b, s)) && Kept(w, SliceAdopted(w, b, s), {})
  {
    var w' := SliceAdopted(w, b, s);
    OrphansClaimed(w, b, s);
    SteadyOwners(w, w');
    OwnersChangedSlabs(w, w');
    SliceAdoptedSlices(w, b, s);
    SliceAdoptedKept(w, b, s);
  }

  lemma SliceAdoptedLive(w: State, b: nat, s: Slice)
    requires Mounted(w, b, s.frames)
    ensures LiveBlocks(SliceAdopted(w, b, s).v) == LiveBlocks(w.v) + {Run(b)}
  {
    var w' := SliceAdopted(w, b, s);
    OrphansClaimed(w, b, s);
    LiveBlocksAre(w);
    LiveBlocksAre(w');
    hide LiveBlocks, Mounted;
    forall x ensures LiveBlock(w', x) <==> LiveBlock(w, x) || x == Run(b) {}
  }

  lemma SliceAdoptedKept(w: State, b: nat, s: Slice)
    requires OwnersOk(w) && SlicesOk(w) && Mounted(w, b, s.frames) && b !in w.v.slices
    ensures Kept(w, SliceAdopted(w, b, s), {})
  {
    var w' := SliceAdopted(w, b, s);
    OrphansClaimed(w, b, s);
    forall x | LiveBlock(w, x) ensures LiveBlock(w', x) && SameBlock(w, w', x) {
      match x
      case Object(c, f, o) =>
      case Run(b') =>
        SliceFrames(w, b');
    }
  }

  /** The slice at b is taken apart: its frames belong to nobody, its pages are vacant. */
  function SliceDropped(w: State, b: nat): State
    requires b in w.v.slices
  {
    w.(v := w.v.(owner := Disowned(w.v.owner, b), slices := w.v.slices - {b}))
  }

  function Disowned(owner: map<nat, Owner>, b: nat): map<nat, Owner> {
    map f | f in owner :: if owner[f] == Page(b) then Orphan else owner[f]
  }

  lemma SliceDroppedSlices(w: State, b: nat)
    requires SlicesOk(w) && b in w.v.slices
    ensures SlicesOk(SliceDropped(w, b))
  {
    var w' := SliceDropped(w, b);
    forall b' | b' in w'.v.slices ensures SliceOk(w', b', w'.v.slices[b']) {
      assert SliceOk(w, b', w.v.slices[b']);
      SliceOwnersChanged(w, w', b');
    }
  }

  lemma SliceDroppedKept(w: State, b: nat)
    requires OwnersOk(w) && SlicesOk(w) && b in w.v.slices
    ensures Kept(w, SliceDropped(w, b), {Run(b)})
  {
    var w' := SliceDropped(w, b);
    forall x | LiveBlock(w, x) && x != Run(b) ensures LiveBlock(w', x) && SameBlock(w, w', x) {
      match x
      case Object(c, f, o) =>
      case Run(b') =>
        SliceFrames(w, b');
    }
  }

  lemma SliceDroppedInv(w: State, b: nat)
    requires Inv(w) && b in w.v.slices
    ensures Inv(SliceDropped(w, b)) && Kept(w, SliceDropped(w, b), {Run(b)})
  {
    hide Kept, TablesOwned, BootOwned, SliceOk, ListOk, SlabOk;
    var w' := SliceDropped(w, b);
    SteadyOwners(w, w');
    OwnersChangedSlabs(w, w');
    SliceDroppedSlices(w, b);
    SliceDroppedKept(w, b);
  }

  lemma SliceDroppedMounted(w: State, b: nat)
    requires Inv(w) && b in w.v.slices
    ensures Mounted(SliceDropped(w, b), b, w.v.slices[b].frames)
    ensures Vacant(SliceDropped(w, b), b, SliceEnd(b, |w.v.slices[b].frames|))
  {
    var s := w.v.slices[b];
    assert SliceOk(w, b, s);
    forall i | 0 <= i < |s.frames| ensures Owns(SliceDropped(w, b), s.frames[i], Orphan) {
      assert Owns(w, s.frames[i], Page(b));
    }
    SlicePlaced(w, b);
    SlabsLow(w);
    forall p | b <= p < SliceEnd(b, |s.frames|) ensures !Watched(SliceDropped(w, b), p) {
      DroppedVacant(w, b, p);
    }
  }

  lemma SlicePlaced(w: State, b: nat)
    requires b in w.v.slices && SliceOk(w, b, w.v.slices[b])
    ensures |w.v.slices[b].frames| > 0 && LARGE_BASE <= b && Placed(w, b, |w.v.slices[b].frames|)
  {}

  lemma DroppedVacant(w: State, b: nat, p: nat)
    requires b in w.v.slices && b <= p < SliceEnd(b, |w.v.slices[b].frames|)
    requires |w.v.slices[b].frames| > 0 && LARGE_BASE <= b && Placed(w, b, |w.v.slices[b].frames|)
    requires Apart(w.v.slices) && w.nextLarge <= LARGE_END && STACK_BASE <= w.nextStack
    requires forall f | f in w.v.owner && w.v.owner[f].Slab? :: f < LARGE_BASE
    ensures !Watched(SliceDropped(w, b), p)
  {}
}
