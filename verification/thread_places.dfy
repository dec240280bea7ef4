/** The stacks that the memory stack lays out are places as the switching of threads needs them. */
module ThreadPlaces {
  import opened Words
  import opened Hardware
  import opened World
  import opened Isolation
  import opened ThreadSteps
  import Runs = ThreadRuns

  /** The stack at b and the `esp` field of its thread. */
  function PlaceAt(b: nat, s: Slice): (p: Option<Runs.Place>)
    ensures p.Some? <==> b + |s.frames| < FRAME_COUNT && s.thread + 4 < WORD_LIMIT
  {
    if b + |s.frames| < FRAME_COUNT && s.thread + 4 < WORD_LIMIT
    then Some(Runs.Place(b * 0x1000, (b + |s.frames|) * 0x1000, s.thread + 4))
    else None
  }

  lemma StackPlace(w: State, b: nat)
    requires Inv(w) && b in w.v.slices && b >= LARGE_END
    ensures PlaceAt(b, w.v.slices[b]).Some? && Runs.PlaceOk(PlaceAt(b, w.v.slices[b]).value)
    ensures PlaceAt(b, w.v.slices[b]).value.slot <= 0xC000_0000 < PlaceAt(b, w.v.slices[b]).value.lo
  {
    hide Inv;
    ThreadFound(w, b);
    PlaceNumbers(b, |w.v.slices[b].frames|, w.v.slices[b].thread);
  }

  lemma PlaceNumbers(b: nat, n: nat, thread: nat)
    requires 0 < n && STACK_BASE <= b && b + n + 1 <= STACK_END && thread % 4 == 0 && thread / 0x1000 < LARGE_BASE
    ensures thread + 4 < WORD_LIMIT && (thread + 4) % 4 == 0 && b * 0x1000 % 4 == 0 && (b + n) * 0x1000 % 4 == 0
    ensures b * 0x1000 + 20 <= (b + n) * 0x1000 && thread + 4 <= 0xC000_0000 <= b * 0x1000
  {}

  /** No two stacks, and no two `esp` fields, of live threads overlap, nor does a field lie on a
      stack: what the switching of threads relies on. */
  lemma StacksAreApart(w: State, b: nat, b': nat)
    requires Inv(w) && b in w.v.slices && b' in w.v.slices && b != b' && b >= LARGE_END && b' >= LARGE_END
    ensures PlaceAt(b, w.v.slices[b]).Some? && PlaceAt(b', w.v.slices[b']).Some?
    ensures Runs.Apart(PlaceAt(b, w.v.slices[b]).value, PlaceAt(b', w.v.slices[b']).value)
  {
    StackPlace(w, b);
    StackPlace(w, b');
    if w.v.slices[b].thread == w.v.slices[b'].thread {
      OneStack(w, b, b');
    }
    assert b < b' ==> SliceEnd(b, |w.v.slices[b].frames|) <= b';
    assert b' < b ==> SliceEnd(b', |w.v.slices[b'].frames|) <= b;
  }

  /** The top of the stack and the `esp` field, as creating a thread leaves them, are
      what its first switch expects: the trampoline's address above four zeros, and a pointer to the
      lowest of them. */
  lemma MadeIsPrepared(w: State, w': State, thread: Word, n: Word, entry: Word, id: Word, trampoline: Word, k: nat)
    requires Inv(w') && ThreadMade(w, w', thread, n, entry, id, trampoline) && k < 5
    ensures PlaceAt(w.nextStack, w'.v.slices[w.nextStack]).Some?
    ensures Reads(w', thread + 4, (w.nextStack + n) * 0x1000 - 20)
    ensures Reads(w', (w.nextStack + n) * 0x1000 - 20 + 4 * k, if k == 4 then trampoline else 0)
  {
    hide Inv, Walk, LiveObject, PlaceAt, Runs.PlaceOk;
    var b := w.nextStack;
    StackPlace(w', b);
    ThreadFound(w', b);
    TopPage(w', b);
    TopWord(b + n, k);
    ThreadWord(thread, 1);
  }

  /** The fields of a new thread, at their places in its structure: id, stack base, ready, no next thread,
      entry point, number of stack pages. */
  lemma MadeHasFields(w: State, w': State, thread: Word, n: Word, entry: Word, id: Word, trampoline: Word)
    requires Inv(w') && ThreadMade(w, w', thread, n, entry, id, trampoline)
    ensures w.nextStack * 0x1000 < WORD_LIMIT
    ensures Reads(w', thread, id) && Reads(w', thread + 8, w.nextStack * 0x1000) && Reads(w', thread + 12, 1)
    ensures Reads(w', thread + 16, 0) && Reads(w', thread + 20, entry) && Reads(w', thread + 28, n)
  {
    hide Inv, Walk, LiveObject;
    ThreadFound(w', w.nextStack);
    DirInside(w');
    forall k | 0 <= k < 8
      ensures (thread + 4 * k) / 0x1000 == thread / 0x1000
      ensures (thread + 4 * k) % 0x1000 / 4 == thread % 0x1000 / 4 + k
    {
      ThreadWord(thread, k);
    }
    assert thread == thread + 4 * 0 && thread + 8 == thread + 4 * 2 && thread + 12 == thread + 4 * 3;
    assert thread + 16 == thread + 4 * 4 && thread + 20 == thread + 4 * 5 && thread + 28 == thread + 4 * 7;
  }

  lemma DirInside(w: State)
    requires Inv(w)
    ensures w.dir < FRAME_COUNT
  {}

  lemma TopPage(w: State, b: nat)
    requires Inv(w) && b in w.v.slices && b >= LARGE_END
    ensures |w.v.slices[b].frames| > 0 && w.dir < FRAME_COUNT && b + |w.v.slices[b].frames| < STACK_END
    ensures Walk(w.mem, w.dir, b + |w.v.slices[b].frames| - 1) == Some(w.v.slices[b].frames[|w.v.slices[b].frames| - 1])
  {}

  lemma TopWord(page: nat, k: nat)
    requires page > 0 && k < 5
    ensures (page * 0x1000 - 20 + 4 * k) / 0x1000 == page - 1
    ensures (page * 0x1000 - 20 + 4 * k) % 0x1000 / 4 == 1019 + k
  {
    assert page * 0x1000 - 20 + 4 * k == (page - 1) * 0x1000 + 4 * (1019 + k);
  }

  lemma ThreadWord(thread: Word, k: nat)
    requires thread % 4 == 0 && thread % 0x1000 / 4 + 8 <= 1024 && k < 8
    ensures (thread + 4 * k) / 0x1000 == thread / 0x1000
    ensures (thread + 4 * k) % 0x1000 / 4 == thread % 0x1000 / 4 + k
  {}
}
