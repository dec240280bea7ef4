/** The scheduler's linked ring of threads. */
module Scheduler {
  import opened Words
  import opened Ticks
  import opened Ring

  class Thread {
    const id: nat
    var state: ThreadState
    var wakeAt: Word
    var next: Thread?

    constructor (id: nat)
      ensures this.id == id && state == Ready && wakeAt == 0 && next == null
    {
      this.id, state, wakeAt, next := id, Ready, 0, null;
    }

    function Snapshot(): Entry
      reads this
    {
      Entry(id, state, wakeAt)
    }
  }

  /** What follows entry j of a path. */
  function After(p: seq<Thread>, j: nat, end: Thread): Thread {
    if j + 1 < |p| then p[j + 1] else end
  }

  /** Each thread of the path points to the next one, the last one to the end. */
  ghost predicate Path(p: seq<Thread>, end: Thread)
    reads p
  {
    forall j | 0 <= j < |p| :: p[j].next == After(p, j, end)
  }

  /** A ring: the last thread points to the first. */
  ghost predicate Linked(ring: seq<Thread>)
    reads ring
  {
    ring != [] && Distinct(ring) && Path(ring, ring[0])
  }

  lemma PathAppend(p: seq<Thread>, q: seq<Thread>, end: Thread)
    requires q != []
    ensures Path(p + q, end) <==> Path(p, q[0]) && Path(q, end)
  {
    var r := p + q;
    assert forall j | 0 <= j < |p| :: r[j] == p[j] && After(r, j, end) == After(p, j, q[0]);
    assert forall j | 0 <= j < |q| :: r[|p| + j] == q[j] && After(r, |p| + j, end) == After(q, j, end);
    if Path(p, q[0]) && Path(q, end) {
      forall j | 0 <= j < |r| ensures r[j].next == After(r, j, end) {
        assert j >= |p| ==> r[j] == q[j - |p|];
      }
    }
  }

  ghost function Entries(ring: seq<Thread>): (r: seq<Entry>)
    reads ring
    ensures |r| == |ring|
    ensures forall i | 0 <= i < |ring| :: r[i] == ring[i].Snapshot()
  {
    seq(|ring|, i requires 0 <= i < |ring| reads ring => ring[i].Snapshot())
  }

  lemma EntriesAppend(p: seq<Thread>, q: seq<Thread>)
    ensures Entries(p + q) == Entries(p) + Entries(q)
  {}

  /** The threads whose entry is not terminated. */
  ghost function Alive(p: seq<Thread>, e: seq<Entry>): (r: seq<Thread>)
    requires |p| == |e|
  {
    if p == [] then []
    else Alive(p[..|p| - 1], e[..|p| - 1]) + if e[|p| - 1].state == Terminated then [] else [p[|p| - 1]]
  }

  lemma {:induction false} AliveEntries(p: seq<Thread>, e: seq<Entry>)
    requires Entries(p) == e
    ensures Entries(Alive(p, e)) == Survivors(e)
  {
    if p != [] {
      var p0, last := p[..|p| - 1], p[|p| - 1];
      assert Entries(p0) == e[..|p| - 1];
      AliveEntries(p0, e[..|p| - 1]);
      EntriesAppend(Alive(p0, e[..|p| - 1]), [last]);
    }
  }

  /** The part of the ring walked so far, without the threads destroyed. */
  ghost function Kept(r0: seq<Thread>, e0: seq<Entry>, i: nat): seq<Thread>
    requires |r0| == |e0| && 1 <= i <= |r0|
  {
    [r0[0]] + Alive(r0[1..i], e0[1..i])
  }

  /** In the walk of `scheduler_yield`, entry i of the old ring is looked at next. */
  ghost predicate Walking(r0: seq<Thread>, e0: seq<Entry>, now: Word, i: nat, kept: seq<Thread>, prev: Thread,
                          candidate: Thread)
    reads r0, kept
  {
    && |r0| == |e0| && 1 <= i <= |r0| && Entries(r0) == e0 && kept != []
    && candidate == After(r0, i - 1, r0[0])
    && kept == Kept(r0, e0, i) && prev == kept[|kept| - 1]
    && Distinct(kept + r0[i..]) && (forall t | t in kept :: t in r0)
    && Path(kept, candidate) && Path(r0[i..], r0[0])
    && FirstRunnable(e0, now, 1) == FirstRunnable(e0, now, i)
  }

  lemma KeptStep(r0: seq<Thread>, e0: seq<Entry>, i: nat)
    requires |r0| == |e0| && 1 <= i < |r0|
    ensures Kept(r0, e0, i + 1) == Kept(r0, e0, i) + if e0[i].state == Terminated then [] else [r0[i]]
  {
    assert r0[1..i + 1][..i - 1] == r0[1..i] && e0[1..i + 1][..i - 1] == e0[1..i];
  }

  lemma WalkStart(r0: seq<Thread>, now: Word)
    requires Linked(r0)
    ensures Walking(r0, Entries(r0), now, 1, [r0[0]], r0[0], After(r0, 0, r0[0])) && r0[0].next == After(r0, 0, r0[0])
  {}

  lemma RestStep(r0: seq<Thread>, i: nat)
    requires i < |r0| && Path(r0[i..], r0[0])
    ensures Path(r0[i + 1..], r0[0]) && r0[i].next == After(r0, i, r0[0])
  {
    assert r0[i..] == [r0[i]] + r0[i + 1..];
    assert r0[i..][0].next == After(r0[i..], 0, r0[0]);
    if i + 1 < |r0| {
      PathAppend([r0[i]], r0[i + 1..], r0[0]);
    }
  }

  lemma WalkFacts(r0: seq<Thread>, e0: seq<Entry>, now: Word, i: nat, kept: seq<Thread>, prev: Thread,
                  candidate: Thread)
    requires Walking(r0, e0, now, i, kept, prev, candidate) && Distinct(r0)
    ensures 1 <= i <= |r0| == |e0| && prev in r0 && candidate in r0 && (candidate == r0[0] <==> i == |r0|)
    ensures i < |r0| ==> candidate == r0[i] && e0[i] == candidate.Snapshot()
    ensures forall t | t in r0[i..] + kept :: t in r0
  {}

  lemma DeadStep(e: seq<Entry>, i: nat)
    requires 1 <= i < |e|
    ensures DeadIds(e[1..i + 1]) == DeadIds(e[1..i]) + if e[i].state == Terminated then [e[i].id] else []
  {
    assert e[1..i + 1][..i - 1] == e[1..i];
  }

  /** A sleeping thread is passed over. */
  lemma SkipStep(r0: seq<Thread>, e0: seq<Entry>, now: Word, i: nat, kept: seq<Thread>, prev: Thread, candidate: Thread)
    requires Walking(r0, e0, now, i, kept, prev, candidate) && i < |r0|
    requires e0[i].state != Terminated && !Runnable(e0[i], now)
    ensures Walking(r0, e0, now, i + 1, kept + [candidate], candidate, After(r0, i, r0[0]))
    ensures candidate.next == After(r0, i, r0[0])
  {
    hide Kept;
    RestStep(r0, i);
    KeptStep(r0, e0, i);
    assert kept + r0[i..] == (kept + [candidate]) + r0[i + 1..];
    PathAppend(kept, [candidate], After(r0, i, r0[0]));
  }

  /** `prev->next = candidate` */
  method Redirect(prev: Thread, candidate: Thread, ghost kept: seq<Thread>, ghost rest: seq<Thread>,
                  ghost was: Thread, ghost end: Thread)
    requires kept != [] && kept[|kept| - 1] == prev && Distinct(kept + rest) && Path(kept, was) && Path(rest, end)
    modifies prev`next
    ensures Path(kept, candidate) && Path(rest, end)
  {
    DistinctParts(kept, rest);
    assert prev in kept && prev !in rest;
    prev.next := candidate;
  }

  /** A terminated thread is unlinked. */
  method Unlink(prev: Thread, gone: Thread, ghost r0: seq<Thread>, ghost e0: seq<Entry>, ghost now: Word, ghost i: nat,
        ghost kept: seq<Thread>)
    returns (candidate: Thread)
    requires Walking(r0, e0, now, i, kept, prev, gone) && i < |r0| && e0[i].state == Terminated
    modifies prev`next
    ensures Walking(r0, e0, now, i + 1, kept, prev, candidate)
  {
    hide Kept, Path;
    RestStep(r0, i);
    KeptStep(r0, e0, i);
    assert kept + r0[i..] == kept + [gone] + r0[i + 1..];
    DistinctParts(kept + [gone], r0[i + 1..]);
    DistinctParts(kept, [gone]);
    DistinctParts(kept, r0[i + 1..]);
    candidate := gone.next;
    Redirect(prev, candidate, kept, r0[i + 1..], gone, r0[0]);
  }

  /** Where the walk ends, the ring is read from the thread found. */
  ghost predicate WalkDone(r0: seq<Thread>, e0: seq<Entry>, now: Word, i: nat, kept: seq<Thread>, candidate: Thread)
    reads r0, kept
  {
    && 1 <= i <= |r0| == |e0| && i == FirstRunnable(e0, now, 1) && kept != []
    && (forall t | t in r0[i..] + kept :: t in r0)
    && Linked(r0[i..] + kept) && (r0[i..] + kept)[0] == candidate && (candidate == r0[0] <==> i == |r0|)
    && Entries(r0[i..] + kept) == e0[i..] + [e0[0]] + Survivors(e0[1..i])
  }

  lemma Walked(r0: seq<Thread>, e0: seq<Entry>, now: Word, i: nat, kept: seq<Thread>, prev: Thread, candidate: Thread)
    requires Walking(r0, e0, now, i, kept, prev, candidate) && (i < |r0| ==> Runnable(e0[i], now)) && Distinct(r0)
    ensures WalkDone(r0, e0, now, i, kept, candidate)
  {
    hide Runnable;
    WalkFacts(r0, e0, now, i, kept, prev, candidate);
    PathAppend(r0[i..], kept, candidate);
    DistinctParts(kept, r0[i..]);
    DistinctParts(r0[i..], kept);
    WalkedEntries(r0, e0, i);
  }

  lemma WalkedEntries(r0: seq<Thread>, e0: seq<Entry>, i: nat)
    requires 1 <= i <= |r0| == |e0| && Entries(r0) == e0
    ensures Entries(r0[i..] + Kept(r0, e0, i)) == e0[i..] + [e0[0]] + Survivors(e0[1..i])
  {
    assert Entries(r0[1..i]) == e0[1..i] && Entries(r0[i..]) == e0[i..] && Entries([r0[0]]) == [e0[0]];
    AliveEntries(r0[1..i], e0[1..i]);
    hide Entries, Survivors, Alive;
    EntriesAppend([r0[0]], Alive(r0[1..i], e0[1..i]));
    EntriesAppend(r0[i..], Kept(r0, e0, i));
    assert e0[i..] + ([e0[0]] + Survivors(e0[1..i])) == e0[i..] + [e0[0]] + Survivors(e0[1..i]);
  }

  lemma FirstReplaced(x: Entry, y: Entry, p: seq<Entry>, q: seq<Entry>, r: seq<Entry>)
    ensures ([x] + p + q + r)[0 := y] == [y] + p + q + r
  {}

  lemma YieldedIs(e0: seq<Entry>, now: Word, i: nat)
    requires e0 != [] && i == FirstRunnable(e0, now, 1)
    ensures i < |e0| ==> Yielded(e0, now) == (e0[i..] + [e0[0]] + Survivors(e0[1..i]))[0 := Woken(e0[i])]
    ensures i == |e0| ==> Yielded(e0, now) == e0[i..] + [e0[0]] + Survivors(e0[1..i])
    ensures Reaped(e0, now) == DeadIds(e0[1..i])
  {
    if i < |e0| {
      assert e0[i..] == [e0[i]] + e0[i + 1..];
      FirstReplaced(e0[i], Woken(e0[i]), e0[i + 1..], [e0[0]], Survivors(e0[1..i]));
    } else {
      assert e0[1..] == e0[1..i];
    }
  }

  /** A thread found asleep no longer is made ready. */
  method Wake(candidate: Thread, ghost ring: seq<Thread>)
    requires Linked(ring) && ring[0] == candidate
    modifies candidate`state
    ensures Linked(ring) && Entries(ring) == old(Entries(ring))[0 := Woken(old(candidate.Snapshot()))]
  {
    if candidate.state == Blocked {
      candidate.state := Ready;
    }
  }

  lemma RingRest(ring: seq<Thread>, thread: Thread)
    requires Linked(ring) && thread !in ring
    ensures Path(ring[1..], ring[0]) && ring[0].next == After(ring, 0, ring[0])
    ensures ring[0] !in ring[1..] && Distinct([ring[0], thread] + ring[1..])
  {
    assert ring[0..] == ring;
    RestStep(ring, 0);
    assert ring == [ring[0]] + ring[1..];
    DistinctParts([ring[0]], ring[1..]);
    DistinctParts([ring[0], thread], ring[1..]);
  }

  lemma AddedPath(first: Thread, second: Thread, rest: seq<Thread>)
    requires first.next == second && second.next == (if rest == [] then first else rest[0]) && Path(rest, first)
    ensures Path([first, second] + rest, first)
  {
    if rest == [] {
      assert [first, second] + rest == [first, second];
    } else {
      PathAppend([first, second], rest, first);
    }
  }

  class Scheduler {
    var current: Thread
    /** The ring, the running thread first. */
    ghost var ring: seq<Thread>
    /** The threads destroyed, in order. */
    ghost var dead: seq<nat>

    ghost predicate Valid()
      reads this, ring
    {
      Linked(ring) && ring[0] == current
    }

    /** `scheduler_initialize`: the boot thread runs, the idle thread is next. */
    constructor Initialize(idle: Thread)
      requires idle.id != 0 && idle.state == Ready
      modifies idle
      ensures Valid() && Entries(ring) == [Entry(0, Running, 0), Entry(idle.id, Ready, old(idle.wakeAt))] && dead == []
      ensures ring[1] == idle
    {
      var boot := new Thread(0);
      boot.state := Running;
      boot.next := boot;
      current := boot;
      ring := [boot];
      dead := [];
      new;
      Add(idle);
    }

    /** `scheduler_add` */
    method Add(thread: Thread)
      requires Valid() && thread !in ring
      modifies this, ring, thread
      ensures Valid() && ring == [old(ring)[0], thread] + old(ring)[1..] && dead == old(dead)
      ensures Entries(ring) == [old(Entries(ring))[0], old(thread.Snapshot())] + old(Entries(ring))[1..]
    {
      hide Path, Distinct;
      ghost var rest := ring[1..];
      RingRest(ring, thread);
      thread.next := current.next;
      current.next := thread;
      ring := [current, thread] + rest;
      AddedPath(current, thread, rest);
    }

    /** The loop of `scheduler_yield`: threads that are asleep are passed over and terminated ones
        destroyed, up to the first that can run. */
    method Walk(now: Word) returns (candidate: Thread, ghost i: nat, ghost kept: seq<Thread>)
      requires Valid()
      modifies this`dead, ring
      ensures WalkDone(ring, old(Entries(ring)), now, i, kept, candidate)
      ensures dead == old(dead) + DeadIds(old(Entries(ring))[1..i])
    {
      hide Walking, Path, Survivors, Distinct, WalkDone;
      ghost var r0, e0 := ring, Entries(ring);
      i, kept := 1, [r0[0]];
      var prev := current;
      WalkStart(r0, now);
      candidate := current.next;
      WalkFacts(r0, e0, now, i, kept, prev, candidate);
      while candidate != current
        invariant Walking(r0, e0, now, i, kept, prev, candidate)
        invariant 1 <= i <= |r0| == |e0| && prev in r0 && candidate in r0 && (candidate == current <==> i == |r0|)
        invariant dead == old(dead) + DeadIds(e0[1..i])
        decreases |r0| - i
      {
        WalkFacts(r0, e0, now, i, kept, prev, candidate);
        DeadStep(e0, i);
        if candidate.state == Terminated {
          var gone := candidate;
          candidate := Unlink(prev, gone, r0, e0, now, i, kept);
          dead := dead + [gone.id];
        } else if candidate.state == Blocked && Before(now, candidate.wakeAt) {
          SkipStep(r0, e0, now, i, kept, prev, candidate);
          kept := kept + [candidate];
          prev := candidate;
          candidate := candidate.next;
        } else {
          break;
        }
        i := i + 1;
        WalkFacts(r0, e0, now, i, kept, prev, candidate);
      }
      WalkFacts(r0, e0, now, i, kept, prev, candidate);
      assert i < |r0| ==> Runnable(e0[i], now);
      Walked(r0, e0, now, i, kept, prev, candidate);
    }

    /** `scheduler_yield`, up to the switch of stacks. */
    method Yield(now: Word)
      requires Valid()
      modifies this, ring
      ensures Valid() && forall t | t in ring :: t in old(ring)
      ensures Entries(ring) == Yielded(old(Entries(ring)), now)
      ensures dead == old(dead) + Reaped(old(Entries(ring)), now)
    {
      hide Path, Yielded, Reaped, Survivors;
      ghost var e0 := Entries(ring);
      var candidate; ghost var i, kept;
      candidate, i, kept := Walk(now);
      YieldedIs(e0, now, i);
      ring := ring[i..] + kept;
      if candidate != current {
        Wake(candidate, ring);
        current := candidate;
      }
    }

    /** The running thread's state is set. */
    method SetState(state: ThreadState, wakeAt: Word)
      requires Valid()
      modifies current`state, current`wakeAt
      ensures Valid() && Entries(ring) == old(Entries(ring))[0 := Entry(current.id, state, wakeAt)]
    {
      current.wakeAt := wakeAt;
      current.state := state;
    }

    /** `thread_sleep`: the counter reads now at first, later when the walk begins. */
    method Sleep(ms: Word, now: Word, later: Word)
      requires Valid()
      modifies this, ring
      ensures Valid() && forall t | t in ring :: t in old(ring)
      ensures Entries(ring)
           == Yielded(old(Entries(ring))[0 := Entry(old(current.id), Blocked, WakeAt(now, ms))], later)
      ensures dead == old(dead)
                      + Reaped(old(Entries(ring))[0 := Entry(old(current.id), Blocked, WakeAt(now, ms))], later)
    {
      hide Yielded, Reaped, Path;
      SetState(Blocked, WakeAt(now, ms));
      Yield(later);
    }

    /** The end of `thread_trampoline`: the thread marks itself terminated and yields. */
    method Exit(now: Word)
      requires Valid()
      modifies this, ring
      ensures Valid() && forall t | t in ring :: t in old(ring)
      ensures Entries(ring)
           == Yielded(old(Entries(ring))[0 := Entry(old(current.id), Terminated, old(current.wakeAt))], now)
      ensures dead == old(dead)
                      + Reaped(old(Entries(ring))[0 := Entry(old(current.id), Terminated, old(current.wakeAt))], now)
    {
      hide Yielded, Reaped, Path;
      SetState(Terminated, current.wakeAt);
      Yield(now);
    }
  }
}
