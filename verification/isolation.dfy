/** Allocated blocks as the program sees them: addresses, sizes, contents read through the page
    tables; blocks overlap neither each other nor any bookkeeping. */
module Isolation {
  import opened Words
  import opened Hardware
  import opened Paging
  import opened SlabPage
  import opened World
  import opened Transitions
  import opened Slices

  /** The block a heap pointer belongs to, from the page it is in. */
  ghost function BlockAt(w: State, ptr: Word): Block {
    var f := ptr / 0x1000;
    if f < LARGE_BASE then
      Object(if f in w.v.owner && w.v.owner[f].Slab? then w.v.owner[f].cache else CACHES, f, ptr % 0x1000 / 4)
    else Run(f)
  }

  /** The address that kmalloc returned for the block. */
  ghost function PtrOf(x: Block): nat {
    match x
    case Object(c, f, o) => f * 0x1000 + 4 * o
    case Run(b) => b * 0x1000 + 8
  }

  /** How many words the block has for its user. */
  ghost function SizeWords(w: State, x: Block): nat
    requires LiveBlock(w, x)
  {
    match x
    case Object(c, f, o) => ObjectWords(c)
    case Run(b) => if |w.v.slices[b].frames| > 0 then |w.v.slices[b].frames| * 1024 - 2 else 0
  }

  /** The block was handed out by kmalloc, not by the thread pool or as a stack. */
  ghost predicate FromHeap(x: Block) {
    match x
    case Object(c, f, o) => c < POOL
    case Run(b) => LARGE_BASE <= b < LARGE_END
  }

  /** The pointer is one that kmalloc returned and that has not been freed. */
  ghost predicate IsHeapPtr(w: State, ptr: Word) {
    LiveBlock(w, BlockAt(w, ptr)) && FromHeap(BlockAt(w, ptr)) && PtrOf(BlockAt(w, ptr)) == ptr
  }

  /** A live kmalloc block is found again from its pointer. */
  lemma PtrFindsBlock(w: State, x: Block)
    requires Inv(w) && LiveBlock(w, x) && FromHeap(x)
    ensures PtrOf(x) < WORD_LIMIT && BlockAt(w, PtrOf(x)) == x && PtrOf(x) > 0
  {
    match x
    case Object(c, f, o) =>
      assert SlabOk(w, f, c);
      assert (f * 0x1000 + 4 * o) / 0x1000 == f && (f * 0x1000 + 4 * o) % 0x1000 / 4 == o;
    case Run(b) =>
      assert (b * 0x1000 + 8) / 0x1000 == b;
  }

  /** What `kfree` reads: the first word of the page is the large magic exactly for a large block,
      and otherwise the second word is the address of the cache that served the block. */
  lemma TagDecides(w: State, x: Block)
    requires Inv(w) && LiveBlock(w, x) && FromHeap(x)
    ensures PtrOf(x) / 0x1000 < WINDOW && Walk(w.mem, w.dir, PtrOf(x) / 0x1000).Some?
    ensures w.mem[Walk(w.mem, w.dir, PtrOf(x) / 0x1000).value][0] == LARGE_MAGIC <==> x.Run?
    ensures x.Object? ==>
              w.mem[Walk(w.mem, w.dir, PtrOf(x) / 0x1000).value][1] == w.caches[x.cache] && PtrOf(x) / 0x1000 == x.frame
    ensures x.Run? ==>
              && PtrOf(x) / 0x1000 == x.base
              && w.mem[Walk(w.mem, w.dir, x.base).value][1] == |w.v.slices[x.base].frames|
  {
    match x
    case Object(c, f, o) =>
      assert SlabOk(w, f, c);
      assert (f * 0x1000 + 4 * o) / 0x1000 == f;
      NextIsAligned(w, c, f);
    case Run(b) =>
      assert SliceOk(w, b, w.v.slices[b]);
      assert (b * 0x1000 + 8) / 0x1000 == b && Walk(w.mem, w.dir, b + 0) == Some(w.v.slices[b].frames[0]);
  }

  /** A slab's next pointer is 0 or page-aligned; the magic is neither. */
  lemma NextIsAligned(w: State, c: nat, f: nat)
    requires SlabsOk(w) && c < CACHES && f < FRAME_COUNT && f in w.v.slabs[c]
    ensures w.mem[f][NEXT] % 0x1000 == 0 && w.mem[f][NEXT] != LARGE_MAGIC
  {
    assert ListOk(w, c);
    var i :| 0 <= i < |w.v.slabs[c]| && w.v.slabs[c][i] == f;
    assert ChainedAt(w.mem, w.v.slabs[c], i);
  }

  /** One past the block's last byte. */
  ghost function EndOf(w: State, x: Block): nat
    requires LiveBlock(w, x)
  {
    PtrOf(x) + 4 * SizeWords(w, x)
  }

  /** The pages a block lies in. */
  lemma BlockPages(w: State, x: Block)
    requires Inv(w) && LiveBlock(w, x)
    ensures x.Object? ==>
              && 0 < x.frame < LARGE_BASE && x.frame * 0x1000 + 4 * HEADER <= PtrOf(x)
              && EndOf(w, x) <= (x.frame + 1) * 0x1000
    ensures x.Run? ==>
              LARGE_BASE <= x.base && EndOf(w, x) == (x.base + |w.v.slices[x.base].frames|) * 0x1000
  {
    match x
    case Object(c, f, o) => assert SlabOk(w, f, c);
    case Run(b) => SlicePlaced(w, b);
  }

  /** Two allocated blocks do not share an address. */
  lemma BlocksApart(w: State, x: Block, y: Block)
    requires Inv(w) && LiveBlock(w, x) && LiveBlock(w, y) && x != y
    ensures EndOf(w, x) <= PtrOf(y) || EndOf(w, y) <= PtrOf(x)
  {
    BlockPages(w, x);
    BlockPages(w, y);
    match x
    case Object(c, f, o) =>
      if y.Object? && y.frame == f {
        if o < y.word {
          ObjectsDisjoint(ObjectWords(c), o, y.word);
        } else {
          ObjectsDisjoint(ObjectWords(c), y.word, o);
        }
      }
    case Run(b) =>
  }

  /** The physical word behind word k of a block. */
  ghost function PhysicalWord(w: State, x: Block, k: nat): (nat, nat)
    requires LiveBlock(w, x)
    requires x.Run? ==> (k + 2) / 1024 < |w.v.slices[x.base].frames|
  {
    match x
    case Object(c, f, o) => (f, o + k)
    case Run(b) => (w.v.slices[b].frames[(k + 2) / 1024], (k + 2) % 1024)
  }

  /** The page walk takes the program from word k of a block to that physical word. */
  lemma BlockTranslates(w: State, x: Block, k: nat)
    requires Inv(w) && LiveBlock(w, x) && k < SizeWords(w, x)
    ensures x.Run? ==> (k + 2) / 1024 < |w.v.slices[x.base].frames|
    ensures (PtrOf(x) + 4 * k) / 0x1000 < WINDOW && (PtrOf(x) + 4 * k) % 4 == 0
    ensures Walk(w.mem, w.dir, (PtrOf(x) + 4 * k) / 0x1000) == Some(PhysicalWord(w, x, k).0)
    ensures (PtrOf(x) + 4 * k) % 0x1000 / 4 == PhysicalWord(w, x, k).1
    ensures PhysicalWord(w, x, k).0 < FRAME_COUNT && PhysicalWord(w, x, k).1 < 1024
  {
    hide OwnersOk, SlabsOk, SlicesOk;
    match x
    case Object(c, f, o) =>
      ObjectTranslates(w, c, f, o, k);
    case Run(b) =>
      RunTranslates(w, b, k);
      RunWord(b, k);
  }

  lemma ObjectTranslates(w: State, c: nat, f: nat, o: nat, k: nat)
    requires SlabsOk(w) && LiveObject(w, c, f, o) && k < ObjectWords(c)
    ensures f < LARGE_BASE && o + k < 1024 && w.dir < FRAME_COUNT && Walk(w.mem, w.dir, f) == Some(f)
    ensures (f * 0x1000 + 4 * o + 4 * k) / 0x1000 == f && (f * 0x1000 + 4 * o + 4 * k) % 0x1000 / 4 == o + k
    ensures (f * 0x1000 + 4 * o + 4 * k) % 4 == 0
  {
    assert SlabOk(w, f, c);
    ObjectWord(f, o + k);
    assert f * 0x1000 + 4 * o + 4 * k == f * 0x1000 + 4 * (o + k);
  }

  lemma ObjectWord(f: nat, i: nat)
    requires i < 1024
    ensures (f * 0x1000 + 4 * i) / 0x1000 == f && (f * 0x1000 + 4 * i) % 0x1000 / 4 == i
              && (f * 0x1000 + 4 * i) % 4 == 0
  {}

  lemma RunTranslates(w: State, b: nat, k: nat)
    requires SlicesOk(w) && b in w.v.slices && k < SizeWords(w, Run(b))
    ensures (k + 2) / 1024 < |w.v.slices[b].frames| && b + (k + 2) / 1024 < WINDOW
    ensures w.v.slices[b].frames[(k + 2) / 1024] < FRAME_COUNT
    ensures Walk(w.mem, w.dir, b + (k + 2) / 1024) == Some(w.v.slices[b].frames[(k + 2) / 1024])
  {
    SlicePlaced(w, b);
    assert SliceOk(w, b, w.v.slices[b]);
  }

  lemma RunWord(b: nat, k: nat)
    ensures (b * 0x1000 + 8 + 4 * k) / 0x1000 == b + (k + 2) / 1024
    ensures (b * 0x1000 + 8 + 4 * k) % 0x1000 / 4 == (k + 2) % 1024 && (b * 0x1000 + 8 + 4 * k) % 4 == 0
  {
    var q, r := (k + 2) / 1024, (k + 2) % 1024;
    assert b * 0x1000 + 8 + 4 * k == 0x1000 * (b + q) + 4 * r;
  }

  /** Nor do two blocks share a physical word, whichever pages they are seen through. */
  lemma PhysicallyApart(w: State, x: Block, k: nat, y: Block, j: nat)
    requires Inv(w) && LiveBlock(w, x) && LiveBlock(w, y) && (x != y || k != j)
    requires k < SizeWords(w, x) && j < SizeWords(w, y)
    requires x.Run? ==> (k + 2) / 1024 < |w.v.slices[x.base].frames|
    requires y.Run? ==> (j + 2) / 1024 < |w.v.slices[y.base].frames|
    ensures PhysicalWord(w, x, k) != PhysicalWord(w, y, j)
  {
    OwnerOfWord(w, x, k);
    OwnerOfWord(w, y, j);
    if x.Object? && y.Object? && x.frame == y.frame && x.word != y.word {
      if x.word < y.word {
        ObjectsDisjoint(ObjectWords(x.cache), x.word, y.word);
      } else {
        ObjectsDisjoint(ObjectWords(x.cache), y.word, x.word);
      }
    }
    if x.Run? && y.Run? && x.base == y.base {
      assert SliceOk(w, x.base, w.v.slices[x.base]);
    }
  }

  /** A block's frames are owned on its behalf: none holds a page table or a boot structure, and a
      slab object keeps clear of the slab header and of every free object's link. */
  lemma OwnerOfWord(w: State, x: Block, k: nat)
    requires Inv(w) && LiveBlock(w, x) && k < SizeWords(w, x)
    requires x.Run? ==> (k + 2) / 1024 < |w.v.slices[x.base].frames|
    ensures Owns(w, PhysicalWord(w, x, k).0, match x case Object(c, f, o) => Slab(c) case Run(b) => Page(b))
    ensures !IsTable(w.mem, w.dir, PhysicalWord(w, x, k).0)
    ensures x.Object? ==> PhysicalWord(w, x, k).1 >= HEADER && PhysicalWord(w, x, k).1 !in w.v.free[x.frame]
    ensures x.Run? ==> PhysicalWord(w, x, k) != (w.v.slices[x.base].frames[0], 0)
    ensures x.Run? ==> PhysicalWord(w, x, k) != (w.v.slices[x.base].frames[0], 1)
  {
    match x
    case Object(c, f, o) =>
      assert SlabOk(w, f, c);
      InUseIsNoTable(w, f);
      LinksApart(w.mem[f], f, w.caches[c], ObjectWords(c), w.v.free[f], o, o + k);
    case Run(b) =>
      assert SliceOk(w, b, w.v.slices[b]);
      InUseIsNoTable(w, w.v.slices[b].frames[(k + 2) / 1024]);
  }

  /** No word of a live object is the link word of a free one. */
  lemma LinksApart(page: Frame, f: nat, cache: Word, s: nat, free: seq<nat>, o: nat, k: nat)
    requires PageOk(page, f, cache, s, free) && IsObject(s, o) && o !in free && o <= k < o + s
    ensures k !in free
  {
    forall i | 0 <= i < |free| ensures free[i] != k {
      assert IsObject(s, free[i]);
      if free[i] < o {
        ObjectsDisjoint(s, free[i], o);
      } else {
        ObjectsDisjoint(s, o, free[i]);
      }
    }
  }

  /** The program reads v at an address. */
  ghost predicate Reads(w: State, va: nat, v: Word) {
    && w.dir < FRAME_COUNT && va / 0x1000 < FRAME_COUNT && Walk(w.mem, w.dir, va / 0x1000).Some?
    && w.mem[Walk(w.mem, w.dir, va / 0x1000).value][va % 0x1000 / 4] == v
  }

  /** What word k of a block holds is what the program reads there. */
  lemma BlockReads(w: State, x: Block, k: nat, v: Word)
    requires Inv(w) && LiveBlock(w, x) && k < SizeWords(w, x)
    ensures x.Run? ==> (k + 2) / 1024 < |w.v.slices[x.base].frames|
    ensures PhysicalWord(w, x, k).0 < FRAME_COUNT && PhysicalWord(w, x, k).1 < 1024
    ensures Reads(w, PtrOf(x) + 4 * k, v) <==> w.mem[PhysicalWord(w, x, k).0][PhysicalWord(w, x, k).1] == v
  {
    BlockTranslates(w, x, k);
  }

  /** A step that keeps a block keeps every word the program reads in it. */
  lemma KeptReadsSame(w: State, w': State, except: set<Block>, x: Block, k: nat, v: Word)
    requires Inv(w) && Inv(w') && Kept(w, w', except) && LiveBlock(w, x) && x !in except && k < SizeWords(w, x)
    requires Reads(w, PtrOf(x) + 4 * k, v)
    ensures LiveBlock(w', x) && SizeWords(w', x) == SizeWords(w, x)
    ensures Reads(w', PtrOf(x) + 4 * k, v)
  {
    hide Inv, Reads;
    BlockReads(w, x, k, v);
    assert SameBlock(w, w', x);
    BlockReads(w', x, k, v);
  }

  /** A store into word k of a block, at the physical word behind it. */
  function Stored(w: State, f: nat, i: nat, v: Word): State
    requires f < FRAME_COUNT && i < 1024
  {
    w.(mem := SetWord(w.mem, f, i, v))
  }

  /** The program then reads what was stored. */
  lemma StoredReads(w: State, x: Block, k: nat, v: Word)
    requires Inv(w) && LiveBlock(w, x) && FromHeap(x) && k < SizeWords(w, x)
    requires x.Run? ==> (k + 2) / 1024 < |w.v.slices[x.base].frames|
    requires PhysicalWord(w, x, k).0 < FRAME_COUNT && PhysicalWord(w, x, k).1 < 1024
    requires Inv(Stored(w, PhysicalWord(w, x, k).0, PhysicalWord(w, x, k).1, v))
    ensures Reads(Stored(w, PhysicalWord(w, x, k).0, PhysicalWord(w, x, k).1, v), PtrOf(x) + 4 * k, v)
  {
    BlockTranslates(w, x, k);
    BlockTranslates(Stored(w, PhysicalWord(w, x, k).0, PhysicalWord(w, x, k).1, v), x, k);
  }

  lemma HeaderWord(b: nat)
    ensures (b * 0x1000 + 4) / 0x1000 == b && (b * 0x1000 + 4) % 0x1000 / 4 == 1 && (b * 0x1000 + 4) % 4 == 0
    ensures (b * 0x1000) / 0x1000 == b && (b * 0x1000) % 0x1000 / 4 == 0 && (b * 0x1000) % 4 == 0
  {}

  /** The owner's store into its own block disturbs no bookkeeping and no other block. */
  lemma StoredInv(w: State, x: Block, k: nat, v: Word)
    requires Inv(w) && LiveBlock(w, x) && FromHeap(x) && k < SizeWords(w, x)
    requires x.Run? ==> (k + 2) / 1024 < |w.v.slices[x.base].frames|
    requires PhysicalWord(w, x, k).0 < FRAME_COUNT && PhysicalWord(w, x, k).1 < 1024
    ensures Inv(Stored(w, PhysicalWord(w, x, k).0, PhysicalWord(w, x, k).1, v))
    ensures Kept(w, Stored(w, PhysicalWord(w, x, k).0, PhysicalWord(w, x, k).1, v), {x})
  {
    match x
    case Object(c, f, o) => StoredInObject(w, c, f, o, o + k, v);
    case Run(b) => StoredInRun(w, b, (k + 2) / 1024, (k + 2) % 1024, v);
  }

  lemma StoredInObject(w: State, c: nat, f: nat, o: nat, i: nat, v: Word)
    requires Inv(w) && LiveObject(w, c, f, o) && f < FRAME_COUNT && o <= i < o + ObjectWords(c) && i < 1024
    requires o < 1024 && NoThread(w, c, f, o)
    ensures Inv(Stored(w, f, i, v)) && Kept(w, Stored(w, f, i, v), {Object(c, f, o)})
  {
    assert SlabOk(w, f, c);
    var page := w.mem[f][i := v];
    StoreInObject(w.mem[f], f, w.caches[c], ObjectWords(c), w.v.free[f], o, i, v);
    forall o': nat, k: nat | IsObject(ObjectWords(c), o') && o' !in w.v.free[f] && o' != o
      && o' <= k < o' + ObjectWords(c)
      ensures page[k] == w.mem[f][k]
    {
      if o' < o {
        ObjectsDisjoint(ObjectWords(c), o', o);
      } else {
        ObjectsDisjoint(ObjectWords(c), o, o');
      }
    }
    SlabChangedInv(w, c, f, page, w.v.free[f], o);
    assert SlabChanged(w, f, page, w.v.free[f]) == Stored(w, f, i, v);
  }

  /** A store into a large block behind its header, or anywhere into a stack. */
  lemma StoredInRun(w: State, b: nat, q: nat, r: nat, v: Word)
    requires Inv(w) && b in w.v.slices && q < |w.v.slices[b].frames| && r < 1024
    requires b < LARGE_END ==> q > 0 || r >= 2
    requires w.v.slices[b].frames[q] < FRAME_COUNT
    ensures Inv(Stored(w, w.v.slices[b].frames[q], r, v))
    ensures Kept(w, Stored(w, w.v.slices[b].frames[q], r, v), {Run(b)})
  {
    hide SlabsOk, Kept, TablesOwned, BootExactly;
    var f := w.v.slices[b].frames[q];
    var w' := Stored(w, f, r, v);
    SliceFrames(w, b);
    SteadyOwners(w, w');
    StoredInRunSlabs(w, w', f);
    StoredInRunKept(w, w', b, f);
    StoredInRunSlices(w, w', b, q, r, v);
  }

  lemma StoredInRunSlabs(w: State, w': State, f: nat)
    requires SlabsOk(w) && f in w.v.owner && w.v.owner[f].Page? && w' == w.(mem := w'.mem)
    requires forall g | 0 <= g < FRAME_COUNT && g != f :: w'.mem[g] == w.mem[g]
    requires forall p | 0 <= p < FRAME_COUNT :: Walk(w'.mem, w.dir, p) == Walk(w.mem, w.dir, p)
    ensures SlabsOk(w')
  {
    forall c | 0 <= c < CACHES ensures ListOk(w', c) {
      ListSame(w, w', c);
    }
    forall g | g in w'.v.owner && w'.v.owner[g].Slab? ensures SlabOk(w', g, w'.v.owner[g].cache) {
      SlabSame(w, w', g, w.v.owner[g].cache);
    }
  }

  lemma StoredInRunKept(w: State, w': State, b: nat, f: nat)
    requires OwnersOk(w) && SlicesOk(w) && Owns(w, f, Page(b)) && w' == w.(mem := w'.mem)
    requires forall g | 0 <= g < FRAME_COUNT && g != f :: w'.mem[g] == w.mem[g]
    ensures Kept(w, w', {Run(b)})
  {
    forall x | LiveBlock(w, x) && x != Run(b) ensures LiveBlock(w', x) && SameBlock(w, w', x) {
      match x
      case Object(c, g, o) =>
      case Run(b') =>
        SliceFrames(w, b');
    }
  }

  lemma StoredInRunSlices(w: State, w': State, b: nat, q: nat, r: nat, v: Word)
    requires SlicesOk(w) && Kept(w, w', {Run(b)}) && b in w.v.slices && (b < LARGE_END ==> q > 0 || r >= 2)
    requires q < |w.v.slices[b].frames| && r < 1024 && w.v.slices[b].frames[q] < FRAME_COUNT
    requires w' == Stored(w, w.v.slices[b].frames[q], r, v)
    requires forall p | 0 <= p < FRAME_COUNT :: Walk(w'.mem, w.dir, p) == Walk(w.mem, w.dir, p)
    ensures SlicesOk(w')
  {
    hide SliceOk, Kept;
    StoredOwnSlice(w, w', b, q, r, v);
    forall b' | b' in w'.v.slices ensures SliceOk(w', b', w'.v.slices[b']) {
      if b' != b {
        StoredOtherSlice(w, w', b, b');
      }
    }
  }

  lemma StoredOwnSlice(w: State, w': State, b: nat, q: nat, r: nat, v: Word)
    requires b in w.v.slices && SliceOk(w, b, w.v.slices[b]) && (b < LARGE_END ==> q > 0 || r >= 2)
    requires q < |w.v.slices[b].frames| && r < 1024 && w.v.slices[b].frames[q] < FRAME_COUNT
    requires w' == Stored(w, w.v.slices[b].frames[q], r, v)
    requires forall p | 0 <= p < FRAME_COUNT :: Walk(w'.mem, w.dir, p) == Walk(w.mem, w.dir, p)
    ensures SliceOk(w', b, w.v.slices[b])
  {
    var frames := w.v.slices[b].frames;
    assert Owns(w, frames[q], Page(b));
    if b < LARGE_END {
      assert q > 0 ==> frames[0] != frames[q];
      assert w'.mem[frames[0]][0] == w.mem[frames[0]][0] && w'.mem[frames[0]][1] == w.mem[frames[0]][1];
    }
  }

  lemma StoredOtherSlice(w: State, w': State, b: nat, b': nat)
    requires Kept(w, w', {Run(b)}) && b' in w.v.slices && b' != b && SliceOk(w, b', w.v.slices[b'])
    requires w'.dir == w.dir && SameSlices(w, w')
    requires forall p | 0 <= p < FRAME_COUNT :: Walk(w'.mem, w.dir, p) == Walk(w.mem, w.dir, p)
    ensures SliceOk(w', b', w.v.slices[b'])
  {
    var s := w.v.slices[b'];
    assert LiveBlock(w, Run(b')) && SameBlock(w, w', Run(b'));
    assert s.frames[0] in s.frames;
    if b' >= LARGE_END {
      var f, o := s.thread / 0x1000, s.thread % 0x1000 / 4;
      assert LiveBlock(w, Object(POOL, f, o));
      assert SameBlock(w, w', Object(POOL, f, o));
    }
  }
}
