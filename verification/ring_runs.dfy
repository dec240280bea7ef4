/** What holds over every run of the scheduler: any mixture of yields at any tick, additions, and
    threads changing state. */
module RingRuns {
  import opened Words
  import opened Ring

  /** The ring, and the threads destroyed so far. */
  datatype Sched = Sched(ring: seq<Entry>, dead: seq<nat>)

  /** A yield at a true tick count, `scheduler_add`, or a thread's state being set. */
  datatype Event = Yield(at: nat) | Add(thread: Entry) | Change(i: nat, state: ThreadState, wakeAt: Word)

  function Step(s: Sched, e: Event): (s': Sched)
    requires s.ring != []
    ensures s'.ring != []
  {
    match e
    case Yield(at) => Sched(Yielded(s.ring, Wrap(at)), s.dead + Reaped(s.ring, Wrap(at)))
    case Add(t) => s.(ring := [s.ring[0], t] + s.ring[1..])
    case Change(i, state, wakeAt) =>
      if i < |s.ring| then s.(ring := s.ring[i := Entry(s.ring[i].id, state, wakeAt)]) else s
  }

  function Run(s: Sched, events: seq<Event>): (s': Sched)
    requires s.ring != []
    ensures s'.ring != []
    decreases |events|
  {
    if events == [] then s else Run(Step(s, events[0]), events[1..])
  }

  /** Every thread is on the ring once or destroyed once. */
  ghost predicate WellFormed(s: Sched) {
    s.ring != [] && Distinct(Ids(s.ring) + s.dead)
  }

  ghost predicate Known(s: Sched, id: nat) {
    id in Ids(s.ring) || id in s.dead
  }

  /** Threads added are new. */
  ghost predicate AddsNew(s: Sched, events: seq<Event>)
    requires s.ring != []
    decreases |events|
  {
    events != [] ==>
      (events[0].Add? ==> !Known(s, events[0].thread.id)) && AddsNew(Step(s, events[0]), events[1..])
  }

  lemma {:induction false} ExcludingAre(s: seq<nat>, gone: seq<nat>)
    ensures forall x :: x in Excluding(s, gone) <==> x in s && x !in gone
    ensures Distinct(s) ==> Distinct(Excluding(s, gone))
  {
    if s != [] {
      ExcludingAre(s[..|s| - 1], gone);
    }
  }

  lemma RotateDistinct(a: seq<nat>, b: seq<nat>)
    requires Distinct(a + b)
    ensures Distinct(b + a)
  {
    forall i, j | 0 <= i < j < |b + a| ensures (b + a)[i] != (b + a)[j] {
      var i', j' := if i < |b| then |a| + i else i - |b|, if j < |b| then |a| + j else j - |b|;
      assert (b + a)[i] == (a + b)[i'] && (b + a)[j] == (a + b)[j'];
    }
  }

  lemma {:induction false} DeadIdsDistinct(s: seq<Entry>)
    requires Distinct(Ids(s))
    ensures Distinct(DeadIds(s)) && forall x | x in DeadIds(s) :: x in Ids(s)
  {
    if s != [] {
      var s0 := s[..|s| - 1];
      assert Ids(s) == Ids(s0) + [s[|s| - 1].id];
      DistinctParts(Ids(s0), [s[|s| - 1].id]);
      DeadIdsDistinct(s0);
      DistinctParts(DeadIds(s0), [s[|s| - 1].id]);
    }
  }

  /** A yield takes from the ring's threads the destroyed ones, once each, and no others. */
  lemma YieldIds(ring: seq<Entry>, now: Word)
    requires ring != [] && Distinct(Ids(ring))
    ensures Distinct(Ids(Yielded(ring, now))) && Distinct(Reaped(ring, now))
    ensures forall x :: x in Ids(Yielded(ring, now)) <==> x in Ids(ring) && x !in Reaped(ring, now)
    ensures forall x | x in Reaped(ring, now) :: x in Ids(ring)
  {
    hide Ids, Yielded, Excluding, Distinct, OldPlace;
    var k, gone, r, c := FirstRunnable(ring, now, 1), Reaped(ring, now), Yielded(ring, now), OldPlace(ring, now);
    IdsParts(ring, k);
    DistinctParts([ring[0].id] + Ids(ring[1..k]), Ids(ring[k..]));
    DistinctParts([ring[0].id], Ids(ring[1..k]));
    DeadIdsDistinct(ring[1..k]);
    YieldKeepsOrder(ring, now);
    ExcludingAre(Ids(ring), gone);
    IdsAppend(r[c..], r[..c]);
    RotateDistinct(Ids(r[c..]), Ids(r[..c]));
    IdsAppend(r[..c], r[c..]);
    assert r == r[..c] + r[c..];
  }

  lemma StepWellFormed(s: Sched, e: Event)
    requires WellFormed(s) && (e.Add? ==> !Known(s, e.thread.id))
    ensures WellFormed(Step(s, e)) && s.dead <= Step(s, e).dead
    ensures forall id :: Known(Step(s, e), id) <==> Known(s, id) || (e.Add? && e.thread.id == id)
  {
    var ring := s.ring;
    DistinctParts(Ids(ring), s.dead);
    match e
    case Yield(at) =>
      hide Ids, Yielded, Reaped, Distinct;
      YieldIds(ring, Wrap(at));
      DistinctParts(s.dead, Reaped(ring, Wrap(at)));
      DistinctParts(Ids(Yielded(ring, Wrap(at))), s.dead + Reaped(ring, Wrap(at)));
    case Add(t) =>
      hide Ids, Distinct;
      AddedIds(ring, t);
      DistinctParts(Ids([ring[0], t] + ring[1..]), s.dead);
    case Change(i, state, wakeAt) =>
      assert Ids(Step(s, e).ring) == Ids(ring);
  }

  lemma AddedIds(ring: seq<Entry>, t: Entry)
    requires ring != [] && Distinct(Ids(ring)) && t.id !in Ids(ring)
    ensures Distinct(Ids([ring[0], t] + ring[1..]))
    ensures forall x :: x in Ids([ring[0], t] + ring[1..]) <==> x in Ids(ring) || x == t.id
  {
    var r := [ring[0], t] + ring[1..];
    hide Ids, Distinct;
    var head, rest := [ring[0]], ring[1..];
    assert ring == head + rest && r == head + [t] + rest;
    IdsAppend(head, rest);
    IdsAppend(head, [t]);
    IdsAppend(head + [t], rest);
    IdsOne(t);
    DistinctParts(Ids(head), Ids(rest));
    DistinctParts(Ids(head), [t.id]);
    DistinctParts(Ids(head) + [t.id], Ids(rest));
    DistinctParts([t.id], []);
  }

  /** Over every run the ring stays one cycle of distinct threads, and every thread added is on the
      ring or was destroyed, exactly one of the two and exactly once. */
  lemma {:induction false} RunKeepsThreads(s: Sched, events: seq<Event>)
    requires WellFormed(s) && AddsNew(s, events)
    ensures WellFormed(Run(s, events)) && s.dead <= Run(s, events).dead
    ensures forall id | Known(s, id) :: Known(Run(s, events), id)
    decreases |events|
  {
    if events != [] {
      StepWellFormed(s, events[0]);
      RunKeepsThreads(Step(s, events[0]), events[1..]);
    }
  }

  /** The ids of the threads added over a run. */
  function Added(events: seq<Event>): seq<nat>
    decreases |events|
  {
    if events == [] then []
    else (if events[0].Add? then [events[0].thread.id] else []) + Added(events[1..])
  }

  /** Threads with ids of their own are new when they are added. */
  lemma {:induction false} OwnIdsAreNew(s: Sched, events: seq<Event>)
    requires WellFormed(s) && Distinct(Added(events)) && forall id | id in Added(events) :: !Known(s, id)
    ensures AddsNew(s, events)
    decreases |events|
  {
    if events != [] {
      var e, rest := events[0], events[1..];
      var first := if e.Add? then [e.thread.id] else [];
      DistinctParts(first, Added(rest));
      assert e.Add? ==> e.thread.id in first && e.thread.id in Added(events);
      StepWellFormed(s, e);
      OwnIdsAreNew(Step(s, e), rest);
    }
  }

  /** `next_thread_id` before the first creation and after each: 1, then one more in 32 bits. The k-th
      thread created gets its k-th value. */
  ghost predicate Counts(counter: seq<nat>) {
    counter != [] && counter[0] == 1 && forall k | 0 <= k < |counter| - 1 :: counter[k + 1] == Wrap(counter[k] + 1)
  }

  lemma {:induction false} CounterValue(counter: seq<nat>, k: nat)
    requires Counts(counter) && k < |counter|
    ensures counter[k] == (k + 1) % 0x1_0000_0000
  {
    if k > 0 {
      CounterValue(counter, k - 1);
      assert counter[k - 1 + 1] == Wrap(counter[k - 1] + 1);
    }
  }

  /** The threads created have ids of their own, none of them the boot thread's 0, up to 2^32 - 1 of
      them and no further. */
  lemma ThreadIds(counter: seq<nat>)
    requires Counts(counter)
    ensures Distinct(counter[..|counter| - 1]) && 0 !in counter[..|counter| - 1] <==> |counter| - 1 <= 0xFFFF_FFFF
  {
    var ids := counter[..|counter| - 1];
    forall k | 0 <= k < |ids| ensures ids[k] == (k + 1) % 0x1_0000_0000 {
      CounterValue(counter, k);
    }
    if |ids| > 0xFFFF_FFFF {
      assert ids[0xFFFF_FFFF] == 0;
    }
  }

  /** So a thread is new to the scheduler whenever it is first added: the j-th thread added is the
      nth[j]-th one created, and those on the ring or destroyed at the start are the boot thread and
      threads created before. */
  lemma CreatedAreNew(s: Sched, events: seq<Event>, counter: seq<nat>, nth: seq<nat>, before: nat)
    requires WellFormed(s) && Counts(counter) && |counter| - 1 <= 0xFFFF_FFFF
    requires |nth| == |Added(events)| && Distinct(nth)
    requires forall j | 0 <= j < |nth| :: before <= nth[j] < |counter| - 1 && Added(events)[j] == counter[nth[j]]
    requires forall id | Known(s, id) :: id == 0 || exists k | 0 <= k < before && k < |counter| :: id == counter[k]
    ensures AddsNew(s, events)
  {
    var ids := Added(events);
    forall k | 0 <= k < |counter| - 1 ensures counter[k] == k + 1 {
      CounterValue(counter, k);
    }
    forall id | id in ids ensures !Known(s, id) {
      var j :| 0 <= j < |ids| && ids[j] == id;
      assert counter[nth[j]] == nth[j] + 1;
    }
    forall i, j | 0 <= i < j < |ids| ensures ids[i] != ids[j] {
      assert nth[i] != nth[j];
    }
    OwnIdsAreNew(s, events);
  }

  /** The index of a thread on the ring, or the ring's length. */
  function Position(ring: seq<Entry>, id: nat): (p: nat)
    ensures p <= |ring|
    ensures p < |ring| ==> ring[p].id == id
    ensures forall j | 0 <= j < p :: ring[j].id != id
  {
    if ring == [] || ring[0].id == id then 0 else 1 + Position(ring[1..], id)
  }

  lemma PositionIs(ring: seq<Entry>, p: nat)
    requires Distinct(Ids(ring)) && p < |ring|
    ensures Position(ring, ring[p].id) == p
  {
    assert Ids(ring)[p] == ring[p].id;
  }

  /** Each yield brings a runnable thread nearer to the front. */
  lemma YieldMovesCloser(ring: seq<Entry>, now: Word, p: nat)
    requires 0 < p < |ring| && Runnable(ring[p], now) && Distinct(Ids(ring))
    ensures Position(Yielded(ring, now), ring[p].id) == p - FirstRunnable(ring, now, 1) < p
  {
    var k := FirstRunnable(ring, now, 1);
    var r := Yielded(ring, now);
    assert k <= p;
    YieldIds(ring, now);
    assert r[p - k].id == ring[p].id by {
      if p > k {
        assert r[p - k] == ring[k + 1..][p - k - 1];
      }
    }
    PositionIs(r, p - k);
  }

  function Yields(events: seq<Event>): nat {
    if events == [] then 0 else (if events[0].Yield? then 1 else 0) + Yields(events[1..])
  }

  function Adds(events: seq<Event>): nat {
    if events == [] then 0 else (if events[0].Add? then 1 else 0) + Adds(events[1..])
  }

  /** Until it is chosen, the thread can run whenever some thread yields. */
  ghost predicate StaysRunnable(s: Sched, events: seq<Event>, id: nat)
    requires s.ring != []
    decreases |events|
  {
    var p := Position(s.ring, id);
    p < |s.ring| && (p > 0 && events != [] ==>
      && (events[0].Yield? ==> Runnable(s.ring[p], Wrap(events[0].at)))
      && StaysRunnable(Step(s, events[0]), events[1..], id))
  }

  lemma WaitingStep(s: Sched, e: Event, id: nat)
    requires WellFormed(s) && (e.Add? ==> !Known(s, e.thread.id)) && 0 < Position(s.ring, id) < |s.ring|
    requires e.Yield? ==> Runnable(s.ring[Position(s.ring, id)], Wrap(e.at))
    ensures e.Yield? ==> Position(Step(s, e).ring, id) < Position(s.ring, id)
    ensures e.Add? ==> Position(Step(s, e).ring, id) == Position(s.ring, id) + 1
    ensures e.Change? ==> Position(Step(s, e).ring, id) == Position(s.ring, id)
  {
    var p, r := Position(s.ring, id), Step(s, e).ring;
    DistinctParts(Ids(s.ring), s.dead);
    StepWellFormed(s, e);
    DistinctParts(Ids(r), Step(s, e).dead);
    match e
    case Yield(at) => YieldMovesCloser(s.ring, Wrap(at), p);
    case Add(t) => PositionIs(r, p + 1);
    case Change(i, state, wakeAt) => PositionIs(r, p);
  }

  /** Bounded waiting: a thread that stays runnable runs within its distance from the front plus
      the number of threads added meanwhile, counted in yields. */
  lemma {:induction false} BoundedWaiting(s: Sched, events: seq<Event>, id: nat) returns (n: nat)
    requires WellFormed(s) && AddsNew(s, events) && StaysRunnable(s, events, id)
    requires Yields(events) >= Position(s.ring, id) + Adds(events)
    ensures n <= |events| && Run(s, events[..n]).ring[0].id == id
    ensures Yields(events[..n]) <= Position(s.ring, id) + Adds(events[..n])
    decreases |events|
  {
    n := 0;
    if Position(s.ring, id) > 0 {
      var e, rest := events[0], events[1..];
      StepWellFormed(s, e);
      WaitingStep(s, e, id);
      var m := BoundedWaiting(Step(s, e), rest, id);
      n := 1 + m;
      assert events[..n][1..] == rest[..m];
    }
  }
}
