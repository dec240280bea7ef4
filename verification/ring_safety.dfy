/** Who may run: no blocked or terminated thread while the idle thread is on the ring, and no
    sleeper before its time. */
module RingSafety {
  import opened Words
  import opened Ticks
  import opened Ring
  import opened RingRuns

  predicate Fit(e: Entry) {
    e.state == Ready || e.state == Running
  }

  lemma {:induction false} SurvivorsHave(s: seq<Entry>, e: Entry)
    requires e in s && e.state != Terminated
    ensures e in Survivors(s)
  {
    var last := s[|s| - 1];
    if e != last {
      assert e in s[..|s| - 1] by {
        assert s == s[..|s| - 1] + [last];
      }
      SurvivorsHave(s[..|s| - 1], e);
    }
  }

  /** The running thread keeps the processor if and only if no other thread can run. */
  lemma StaysExactly(ring: seq<Entry>, now: Word)
    requires ring != [] && Distinct(Ids(ring))
    ensures Yielded(ring, now)[0].id == ring[0].id <==> forall i | 1 <= i < |ring| :: !Runnable(ring[i], now)
    ensures Yielded(ring, now)[0].id == ring[0].id ==> Yielded(ring, now)[0] == ring[0]
    ensures Yielded(ring, now)[0].id != ring[0].id ==> Fit(Yielded(ring, now)[0])
  {
    var k := FirstRunnable(ring, now, 1);
    if k < |ring| {
      assert Ids(ring)[0] != Ids(ring)[k];
    }
  }

  /** Who is behind the front after a yield. */
  lemma YieldedTail(ring: seq<Entry>, now: Word, k: nat)
    requires ring != [] && k == FirstRunnable(ring, now, 1)
    ensures Yielded(ring, now)[1..]
         == if k == |ring| then Survivors(ring[1..k]) else ring[k + 1..] + [ring[0]] + Survivors(ring[1..k])
  {
    if k == |ring| {
      assert ring[1..] == ring[1..k];
    }
  }

  lemma InPart(ring: seq<Entry>, a: nat, b: nat, i: nat)
    requires a <= i < b <= |ring|
    ensures ring[i] in ring[a..b]
  {
    assert ring[a..b][i - a] == ring[i];
  }

  /** A thread that is passed over stays on the ring as it is, away from the front. */
  lemma PassedStays(ring: seq<Entry>, now: Word, e: Entry)
    requires ring != [] && e in ring[1..] && e.state != Terminated && !Runnable(e, now)
    ensures e in Yielded(ring, now)[1..]
  {
    hide Yielded;
    var k := FirstRunnable(ring, now, 1);
    var i :| 1 <= i < |ring| && ring[i] == e;
    YieldedTail(ring, now, k);
    if i < k {
      InPart(ring, 1, k, i);
      SurvivorsHave(ring[1..k], e);
    } else {
      InPart(ring, k + 1, |ring|, i);
    }
  }

  /** A terminated thread off the front is destroyed by the yield or stays off the front. */
  lemma DeadStays(ring: seq<Entry>, now: Word, e: Entry)
    requires ring != [] && e in ring[1..] && e.state == Terminated && Distinct(Ids(ring))
    ensures e.id in Reaped(ring, now) || e in Yielded(ring, now)[1..]
  {
    hide Yielded, Reaped, Ids;
    var k := FirstRunnable(ring, now, 1);
    var i :| 1 <= i < |ring| && ring[i] == e;
    YieldedTail(ring, now, k);
    if i < k {
      ReapedAre(ring, now, i);
    } else {
      InPart(ring, k + 1, |ring|, i);
    }
  }

  /** A thread that is ready or running stays on the ring as it is. */
  lemma LivingStays(ring: seq<Entry>, now: Word, e: Entry)
    requires ring != [] && e in ring && Fit(e)
    ensures e in Yielded(ring, now)
  {}

  /** No event of the run sets the state of the thread. */
  ghost predicate Spares(s: Sched, events: seq<Event>, id: nat)
    requires s.ring != []
    decreases |events|
  {
    events != [] ==>
      && (events[0].Change? && events[0].i < |s.ring| ==> s.ring[events[0].i].id != id)
      && Spares(Step(s, events[0]), events[1..], id)
  }

  ghost predicate IdleOn(s: Sched, idle: nat) {
    exists e :: e in s.ring && e.id == idle && Fit(e)
  }

  lemma IdleStep(s: Sched, e: Event, idle: nat)
    requires s.ring != [] && IdleOn(s, idle)
    requires e.Change? && e.i < |s.ring| ==> s.ring[e.i].id != idle
    ensures IdleOn(Step(s, e), idle)
  {
    var x :| x in s.ring && x.id == idle && Fit(x);
    match e
    case Yield(at) => LivingStays(s.ring, Wrap(at), x);
    case Add(t) =>
      var i :| 0 <= i < |s.ring| && s.ring[i] == x;
      assert Step(s, e).ring[if i == 0 then 0 else i + 1] == x;
    case Change(i, state, wakeAt) =>
      var j :| 0 <= j < |s.ring| && s.ring[j] == x;
      assert Step(s, e).ring[j] == x;
  }

  lemma YieldFits(s: Sched, at: nat, idle: nat)
    requires WellFormed(s) && IdleOn(s, idle)
    ensures Fit(Step(s, Yield(at)).ring[0])
    ensures !Fit(s.ring[0]) ==> Step(s, Yield(at)).ring[0].id != s.ring[0].id
  {
    DistinctParts(Ids(s.ring), s.dead);
    StaysExactly(s.ring, Wrap(at));
    var x :| x in s.ring && x.id == idle && Fit(x);
    var i :| 0 <= i < |s.ring| && s.ring[i] == x;
    assert Runnable(s.ring[i], Wrap(at));
  }

  lemma {:induction false} IdleRun(s: Sched, events: seq<Event>, idle: nat)
    requires WellFormed(s) && AddsNew(s, events) && IdleOn(s, idle) && Spares(s, events, idle)
    ensures WellFormed(Run(s, events)) && IdleOn(Run(s, events), idle)
    decreases |events|
  {
    if events != [] {
      hide Step, WellFormed, IdleOn;
      StepWellFormed(s, events[0]);
      IdleStep(s, events[0], idle);
      IdleRun(Step(s, events[0]), events[1..], idle);
    }
  }

  /** With the idle thread on the ring, a yield after any run leaves a ready or running thread at
      the front, and takes the processor from a thread that is blocked or terminated. */
  lemma NeverRunsBlocked(s: Sched, events: seq<Event>, at: nat, idle: nat)
    requires WellFormed(s) && AddsNew(s, events) && IdleOn(s, idle) && Spares(s, events, idle)
    ensures Fit(Step(Run(s, events), Yield(at)).ring[0])
    ensures !Fit(Run(s, events).ring[0]) ==>
              Step(Run(s, events), Yield(at)).ring[0].id != Run(s, events).ring[0].id
  {
    IdleRun(s, events, idle);
    YieldFits(Run(s, events), at, idle);
  }

  /** The thread is asleep until the deadline and not at the front. */
  ghost predicate SleepsOff(s: Sched, id: nat, deadline: nat) {
    s.ring != [] && Entry(id, Blocked, Wrap(deadline)) in s.ring[1..]
  }

  ghost predicate YieldsIn(events: seq<Event>, from: nat, to: nat) {
    forall i | 0 <= i < |events| && events[i].Yield? :: from <= events[i].at < to
  }

  lemma SleepStep(s: Sched, e: Event, id: nat, deadline: nat)
    requires s.ring != [] && SleepsOff(s, id, deadline)
    requires e.Change? && e.i < |s.ring| ==> s.ring[e.i].id != id
    requires e.Yield? ==> deadline - 0x8000_0000 <= e.at < deadline
    ensures SleepsOff(Step(s, e), id, deadline)
  {
    var x := Entry(id, Blocked, Wrap(deadline));
    match e
    case Yield(at) =>
      BeforeIsBefore(at, deadline);
      PassedStays(s.ring, Wrap(at), x);
    case Add(t) =>
      var i :| 0 <= i < |s.ring[1..]| && s.ring[1..][i] == x;
      assert Step(s, e).ring[1..][i + 1] == x;
    case Change(i, state, wakeAt) =>
      var j :| 0 <= j < |s.ring[1..]| && s.ring[1..][j] == x;
      assert Step(s, e).ring[1..][j] == x;
  }

  lemma {:induction false} SleepsThrough(s: Sched, events: seq<Event>, id: nat, deadline: nat)
    requires WellFormed(s) && AddsNew(s, events) && Spares(s, events, id) && SleepsOff(s, id, deadline)
    requires YieldsIn(events, if deadline < 0x8000_0000 then 0 else deadline - 0x8000_0000, deadline)
    ensures SleepsOff(Run(s, events), id, deadline) && Run(s, events).ring[0].id != id
    decreases |events|
  {
    DistinctParts(Ids(s.ring), s.dead);
    if events == [] {
      var i :| 0 <= i < |s.ring[1..]| && s.ring[1..][i].id == id;
      assert Ids(s.ring)[0] != Ids(s.ring)[i + 1];
    } else {
      StepWellFormed(s, events[0]);
      SleepStep(s, events[0], id, deadline);
      SleepsThrough(Step(s, events[0]), events[1..], id, deadline);
    }
  }

  /** `thread_sleep(ms)` by the thread at the front, at true tick t: the state is set, and the
      thread yields at tick u. */
  function SleepCall(s: Sched, ms: Word, t: nat, u: nat): Sched
    requires s.ring != []
  {
    Step(Step(s, Change(0, Blocked, WakeAt(Wrap(t), ms))), Yield(u))
  }

  lemma WakesAt(t: nat, ms: Word)
    ensures WakeAt(Wrap(t), ms) == Wrap(t + SleepTicks(ms))
  {
    WrapSum(t, SleepTicks(ms));
  }

  lemma SleepSwitches(s: Sched, ms: Word, t: nat, u: nat, idle: nat)
    requires WellFormed(s) && IdleOn(s, idle) && s.ring[0].id != idle
    ensures WellFormed(SleepCall(s, ms, t, u))
    ensures SleepsOff(SleepCall(s, ms, t, u), s.ring[0].id, t + SleepTicks(ms))
  {
    hide Yielded, Reaped, WellFormed, WakeAt, SleepTicks;
    var e := Change(0, Blocked, WakeAt(Wrap(t), ms));
    var s1 := Step(s, e);
    StepWellFormed(s, e);
    StepWellFormed(s1, Yield(u));
    IdleStep(s, e, idle);
    WakesAt(t, ms);
    SwitchedOff(s1.ring, Wrap(u), idle);
  }

  /** With the idle thread behind it, the thread that yields goes behind the front. */
  lemma SwitchedOff(ring: seq<Entry>, now: Word, idle: nat)
    requires ring != [] && ring[0].id != idle
    requires exists e :: e in ring && e.id == idle && Fit(e)
    ensures ring[0] in Yielded(ring, now)[1..]
  {
    var k := FirstRunnable(ring, now, 1);
    var x :| x in ring && x.id == idle && Fit(x);
    var i :| 0 <= i < |ring| && ring[i] == x;
    assert k <= i;
    YieldedTail(ring, now, k);
  }

  /** No early wake-up: a thread that sleeps for ms milliseconds at tick t runs again at no tick
      before t + ms / 10 (rounded up), whatever the others do and however often the 32-bit tick
      counter wraps. */
  lemma NoEarlyWake(s: Sched, ms: Word, t: nat, u: nat, idle: nat, events: seq<Event>)
    requires WellFormed(s) && IdleOn(s, idle) && s.ring[0].id != idle && ms <= 42949662
    requires AddsNew(SleepCall(s, ms, t, u), events) && Spares(SleepCall(s, ms, t, u), events, s.ring[0].id)
    requires YieldsIn(events, t, t + CoveringTicks(ms))
    ensures Run(SleepCall(s, ms, t, u), events).ring[0].id != s.ring[0].id
  {
    hide SleepCall, Step, Spares, AddsNew, WellFormed;
    SleepTicksExact(ms);
    SleepSwitches(s, ms, t, u, idle);
    SleepsThrough(SleepCall(s, ms, t, u), events, s.ring[0].id, t + SleepTicks(ms));
  }

  /** From its deadline on, for 2^31 ticks, the sleeper can run. */
  lemma WakesInTime(e: Entry, deadline: nat, at: nat)
    requires e.state == Blocked && e.wakeAt == Wrap(deadline)
    ensures deadline <= at < deadline + 0x8000_0000 ==> Runnable(e, Wrap(at))
    ensures Runnable(e, Wrap(at)) <==> (at - deadline) % 0x1_0000_0000 < 0x8000_0000
  {
    BeforeWraps(at, deadline);
  }

  ghost predicate DeadOff(s: Sched, id: nat) {
    s.ring != [] && (id in s.dead || exists e :: e in s.ring[1..] && e.id == id && e.state == Terminated)
  }

  lemma DeadStep(s: Sched, e: Event, id: nat)
    requires WellFormed(s) && DeadOff(s, id)
    requires e.Change? && e.i < |s.ring| ==> s.ring[e.i].id != id
    ensures DeadOff(Step(s, e), id)
  {
    DistinctParts(Ids(s.ring), s.dead);
    hide Yielded, Reaped, Ids;
    if id !in s.dead {
      var x :| x in s.ring[1..] && x.id == id && x.state == Terminated;
      var i :| 0 <= i < |s.ring[1..]| && s.ring[1..][i] == x;
      match e
      case Yield(at) => DeadStays(s.ring, Wrap(at), x);
      case Add(t) => assert Step(s, e).ring[1..][i + 1] == x;
      case Change(j, state, wakeAt) => assert Step(s, e).ring[1..][i] == x;
    }
  }

  /** A terminated thread that has been switched away from never runs again. */
  lemma {:induction false} DeadNeverRuns(s: Sched, events: seq<Event>, id: nat)
    requires WellFormed(s) && AddsNew(s, events) && Spares(s, events, id) && DeadOff(s, id)
    ensures DeadOff(Run(s, events), id) && Run(s, events).ring[0].id != id
    decreases |events|
  {
    DistinctParts(Ids(s.ring), s.dead);
    if events == [] {
      assert s.ring[0].id == Ids(s.ring)[0];
      if id !in s.dead {
        var i :| 0 <= i < |s.ring[1..]| && s.ring[1..][i].id == id;
        assert Ids(s.ring)[0] != Ids(s.ring)[i + 1];
      }
    } else {
      StepWellFormed(s, events[0]);
      DeadStep(s, events[0], id);
      DeadNeverRuns(Step(s, events[0]), events[1..], id);
    }
  }
}
