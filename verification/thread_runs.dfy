/** Any number of threads switching among each other: what each one finds when it resumes. */
module ThreadRuns {
  import opened Words
  import opened ContextSwitch

  /** A thread's stack, from lo up to hi, and the address of its `esp` field. */
  datatype Place = Place(lo: Word, hi: Word, slot: Word)

  /** The machine, the threads, and for each thread that is not running the registers it had when
      it was switched away from. */
  datatype System = System(
    cpu: Cpu,
    places: map<nat, Place>,
    saved: map<nat, Regs>,
    current: nat,
    trampoline: Word)

  ghost predicate Holds(p: Place, a: Word) {
    p.lo <= a < p.hi || a == p.slot
  }

  ghost predicate PlaceOk(p: Place) {
    p.lo + 20 <= p.hi && p.lo % 4 == 0 && p.hi % 4 == 0 && p.slot % 4 == 0 && !(p.lo <= p.slot < p.hi)
  }

  ghost predicate Apart(p: Place, q: Place) {
    && (p.hi <= q.lo || q.hi <= p.lo) && p.slot != q.slot
    && !(q.lo <= p.slot < q.hi) && !(p.lo <= q.slot < p.hi)
  }

  /** The thread's `esp` field leads to its registers, on its own stack. */
  ghost predicate Suspended(store: Store, p: Place, r: Regs) {
    var e := Get(store, p.slot);
    p.lo <= e && e + 20 <= p.hi && e % 4 == 0 && Loaded(store, e) == r
  }

  ghost predicate Inv(s: System) {
    && s.current in s.places && s.saved.Keys == s.places.Keys - {s.current}
    && (forall i | i in s.places :: PlaceOk(s.places[i]))
    && (forall i, j | i in s.places && j in s.places && i != j :: Apart(s.places[i], s.places[j]))
    && (forall i | i in s.saved :: Suspended(s.cpu.store, s.places[i], s.saved[i]))
  }

  /** The thread's stack and its `esp` field hold the same words in both stores. */
  ghost predicate SameAt(m: Store, m': Store, p: Place) {
    forall a: Word | a % 4 == 0 && Holds(p, a) :: Get(m', a) == Get(m, a)
  }

  /** The running thread computes, a switch to another thread, a new thread, the end of one. */
  datatype Event = Work(cpu: Cpu) | Switch(to: nat, ret: Word) | Create(id: nat, place: Place) | Destroy(id: nat)

  /** A thread writes neither to the stacks nor to the `esp` fields of others, and has room on its
      own stack for a switch; a new thread has a place of its own; only others are destroyed. */
  ghost predicate Allowed(s: System, e: Event)
    requires s.current in s.places
  {
    match e
    case Work(c) =>
      forall i | i in s.saved && i in s.places :: SameAt(s.cpu.store, c.store, s.places[i])
    case Switch(to, ret) =>
      && to in s.saved && to in s.places && s.cpu.regs.esp % 4 == 0
      && s.places[s.current].lo + 28 <= s.cpu.regs.esp <= s.places[s.current].hi
    case Create(id, p) =>
      id !in s.places && PlaceOk(p) && forall i | i in s.places :: Apart(p, s.places[i]) && Apart(s.places[i], p)
    case Destroy(id) => id in s.saved
  }

  /** What a thread is to find after a call of `context_switch` that returns to ret. */
  function AtReturn(r: Regs, ret: Word): Regs
    requires r.esp >= 8
  {
    r.(esp := r.esp - 8, eip := ret)
  }

  /** The stack and the `esp` field of a new thread: the trampoline's address and, below it, four
      zeros for the registers. */
  function Prepared(store: Store, p: Place, trampoline: Word): Store
    requires p.hi >= 20
  {
    var s := Set(store, p.hi - 4, trampoline);
    Set(Set(Set(Set(Set(s, p.hi - 8, 0), p.hi - 12, 0), p.hi - 16, 0), p.hi - 20, 0), p.slot, p.hi - 20)
  }

  function Step(s: System, e: Event): System
    requires s.current in s.places && Allowed(s, e)
  {
    match e
    case Work(c) => s.(cpu := c)
    case Switch(to, ret) =>
      var newEsp := Get(s.cpu.store, s.places[to].slot);
      s.(cpu := Switched(Called(s.cpu, s.places[s.current].slot, newEsp, ret)),
         saved := (s.saved - {to})[s.current := AtReturn(s.cpu.regs, ret)],
         current := to)
    case Create(id, p) =>
      s.(cpu := s.cpu.(store := Prepared(s.cpu.store, p, s.trampoline)),
         places := s.places[id := p],
         saved := s.saved[id := Regs(0, 0, 0, 0, p.hi, s.trampoline)])
    case Destroy(id) => s.(places := s.places - {id}, saved := s.saved - {id})
  }

  lemma StillSuspended(m: Store, m': Store, p: Place, r: Regs)
    requires PlaceOk(p) && Suspended(m, p, r)
    requires SameAt(m, m', p)
    ensures Suspended(m', p, r)
  {
    var e := Get(m, p.slot);
    assert forall k | k in {0, 4, 8, 12, 16} :: Holds(p, e + k) && Up(e, k) == e + k;
  }

  lemma PreparedGets(m: Store, p: Place, trampoline: Word)
    requires PlaceOk(p)
    ensures Suspended(Prepared(m, p, trampoline), p, Regs(0, 0, 0, 0, p.hi, trampoline))
    ensures forall a: Word | a % 4 == 0 && !Holds(p, a) :: Get(Prepared(m, p, trampoline), a) == Get(m, a)
  {
    hide Get, Set;
    var m1 := Set(m, p.hi - 4, trampoline);
    var m2 := Set(m1, p.hi - 8, 0);
    var m3 := Set(m2, p.hi - 12, 0);
    var m4 := Set(m3, p.hi - 16, 0);
    var m5 := Set(m4, p.hi - 20, 0);
    SetGets(m, p.hi - 4, trampoline);
    SetGets(m1, p.hi - 8, 0);
    SetGets(m2, p.hi - 12, 0);
    SetGets(m3, p.hi - 16, 0);
    SetGets(m4, p.hi - 20, 0);
    SetGets(m5, p.slot, p.hi - 20);
  }

  lemma PreparedSpares(m: Store, p: Place, trampoline: Word, q: Place)
    requires PlaceOk(p) && Apart(p, q)
    ensures SameAt(m, Prepared(m, p, trampoline), q)
  {
    hide Prepared, Get, Suspended;
    PreparedGets(m, p, trampoline);
  }

  /** A switch writes only below the stack pointer of the thread switched away from, and to its
      `esp` field. */
  lemma SwitchSpares(c: Cpu, p: Place, q: Place, newEsp: Word, ret: Word)
    requires PlaceOk(p) && Apart(p, q) && c.regs.esp % 4 == 0 && p.lo + 28 <= c.regs.esp <= p.hi
    ensures SameAt(c.store, Switched(Called(c, p.slot, newEsp, ret)).store, q)
  {
    hide Get, Switched, Called, Loaded;
    SwitchEffect(c, p.slot, newEsp, ret, Switched(Called(c, p.slot, newEsp, ret)));
  }

  lemma SwitchSaves(c: Cpu, p: Place, newEsp: Word, ret: Word)
    requires PlaceOk(p) && c.regs.esp % 4 == 0 && p.lo + 28 <= c.regs.esp <= p.hi
    ensures Suspended(Switched(Called(c, p.slot, newEsp, ret)).store, p, AtReturn(c.regs, ret))
    ensures Switched(Called(c, p.slot, newEsp, ret)).regs ==
              Loaded(Switched(Called(c, p.slot, newEsp, ret)).store, newEsp)
  {
    hide Get, Switched, Called, Loaded;
    SwitchEffect(c, p.slot, newEsp, ret, Switched(Called(c, p.slot, newEsp, ret)));
  }

  lemma SwitchLoads(m: Store, m': Store, p: Place, r: Regs)
    requires PlaceOk(p) && Suspended(m, p, r) && SameAt(m, m', p)
    ensures Loaded(m', Get(m, p.slot)) == r
  {
    hide Loaded, Get;
    StillSuspended(m, m', p, r);
    assert Holds(p, p.slot);
  }

  lemma SwitchInv(s: System, to: nat, ret: Word)
    requires Inv(s) && Allowed(s, Switch(to, ret))
    ensures Inv(Step(s, Switch(to, ret)))
    ensures Step(s, Switch(to, ret)).cpu.regs == s.saved[to]
  {
    hide Suspended, Get, Switched, Called, Loaded, Apart, SameAt, PlaceOk;
    var s' := Step(s, Switch(to, ret));
    var p, newEsp := s.places[s.current], Get(s.cpu.store, s.places[to].slot);
    SwitchSaves(s.cpu, p, newEsp, ret);
    forall i | i in s.saved ensures Suspended(s'.cpu.store, s.places[i], s.saved[i]) {
      SwitchSpares(s.cpu, p, s.places[i], newEsp, ret);
      StillSuspended(s.cpu.store, s'.cpu.store, s.places[i], s.saved[i]);
    }
    SwitchSpares(s.cpu, p, s.places[to], newEsp, ret);
    SwitchLoads(s.cpu.store, s'.cpu.store, s.places[to], s.saved[to]);
  }

  lemma CreateInv(s: System, id: nat, p: Place)
    requires Inv(s) && Allowed(s, Create(id, p))
    ensures Inv(Step(s, Create(id, p)))
  {
    hide Suspended, Apart, SameAt, Prepared, Get;
    PreparedGets(s.cpu.store, p, s.trampoline);
    forall i | i in s.saved ensures Suspended(Prepared(s.cpu.store, p, s.trampoline), s.places[i], s.saved[i]) {
      PreparedSpares(s.cpu.store, p, s.trampoline, s.places[i]);
      StillSuspended(s.cpu.store, Prepared(s.cpu.store, p, s.trampoline), s.places[i], s.saved[i]);
    }
  }

  lemma StepInv(s: System, e: Event)
    requires Inv(s) && Allowed(s, e)
    ensures Inv(Step(s, e))
  {
    hide Suspended, Apart, SameAt, PlaceOk;
    match e
    case Work(c) =>
      forall i | i in s.saved ensures Suspended(c.store, s.places[i], s.saved[i]) {
        StillSuspended(s.cpu.store, c.store, s.places[i], s.saved[i]);
      }
    case Switch(to, ret) => SwitchInv(s, to, ret);
    case Create(id, p) => CreateInv(s, id, p);
    case Destroy(id) =>
  }

  ghost predicate AllAllowed(s: System, events: seq<Event>)
    requires Inv(s)
    decreases |events|
  {
    events != [] ==>
      Allowed(s, events[0]) && (StepInv(s, events[0]); AllAllowed(Step(s, events[0]), events[1..]))
  }

  ghost function Run(s: System, events: seq<Event>): System
    requires Inv(s) && AllAllowed(s, events)
    decreases |events|
  {
    if events == [] then s
    else
      StepInv(s, events[0]);
      Run(Step(s, events[0]), events[1..])
  }

  /** Over every run, each thread that does not run has its registers on its own stack. */
  lemma {:induction false} RunInv(s: System, events: seq<Event>)
    requires Inv(s) && AllAllowed(s, events)
    ensures Inv(Run(s, events))
    decreases |events|
  {
    if events != [] {
      StepInv(s, events[0]);
      RunInv(Step(s, events[0]), events[1..]);
    }
  }

  /** No event of the run switches to the thread or destroys it. */
  ghost predicate Leaves(events: seq<Event>, id: nat) {
    forall k | 0 <= k < |events| ::
      (events[k].Switch? ==> events[k].to != id) && (events[k].Destroy? ==> events[k].id != id)
  }

  /** The thread is off the processor in both states, with the same registers, and its stack and its
      `esp` field hold the same words. */
  ghost predicate Parked(s: System, s': System, id: nat) {
    && id in s.saved && id in s'.saved && s'.saved[id] == s.saved[id]
    && id in s.places && id in s'.places && s'.places[id] == s.places[id]
    && SameAt(s.cpu.store, s'.cpu.store, s.places[id])
  }

  lemma StepLeaves(s: System, e: Event, id: nat)
    requires Inv(s) && Allowed(s, e) && id in s.saved
    requires (e.Switch? ==> e.to != id) && (e.Destroy? ==> e.id != id)
    ensures Parked(s, Step(s, e), id)
  {
    hide Suspended, Apart, SameAt, PlaceOk, Prepared, Get;
    match e
    case Work(c) =>
    case Switch(to, ret) =>
      SwitchSpares(s.cpu, s.places[s.current], s.places[id], Get(s.cpu.store, s.places[to].slot), ret);
    case Create(i, p) => PreparedSpares(s.cpu.store, p, s.trampoline, s.places[id]);
    case Destroy(i) => SameSame(s.cpu.store, s.places[id]);
  }

  lemma SameSame(m: Store, p: Place)
    ensures SameAt(m, m, p)
  {}

  lemma ParkedTrans(s: System, s1: System, s2: System, id: nat)
    requires Parked(s, s1, id) && Parked(s1, s2, id)
    ensures Parked(s, s2, id)
  {}

  lemma {:induction false} RunLeaves(s: System, events: seq<Event>, id: nat)
    requires Inv(s) && AllAllowed(s, events) && Leaves(events, id) && id in s.saved
    ensures Parked(s, Run(s, events), id)
    decreases |events|
  {
    hide Allowed, Step, Apart, Suspended, PlaceOk, SameAt;
    if events == [] {
      ParkedSelf(s, id);
    } else {
      var e, rest := events[0], events[1..];
      StepInv(s, e);
      assert (e.Switch? ==> e.to != id) && (e.Destroy? ==> e.id != id);
      StepLeaves(s, e, id);
      forall k | 0 <= k < |rest|
        ensures (rest[k].Switch? ==> rest[k].to != id) && (rest[k].Destroy? ==> rest[k].id != id)
      {
        assert rest[k] == events[k + 1];
      }
      RunLeaves(Step(s, e), rest, id);
      ParkedTrans(s, Step(s, e), Run(s, events), id);
    }
  }

  lemma ParkedSelf(s: System, id: nat)
    requires Inv(s) && id in s.saved
    ensures Parked(s, s, id)
  {}

  /** The last event of a run, apart from the others. */
  lemma {:induction false} RunLast(s: System, events: seq<Event>, e: Event)
    requires Inv(s) && AllAllowed(s, events + [e])
    ensures AllAllowed(s, events) && Inv(Run(s, events)) && Allowed(Run(s, events), e)
    ensures Run(s, events + [e]) == Step(Run(s, events), e)
    decreases |events|
  {
    hide Allowed, Step;
    var all := events + [e];
    StepInv(s, all[0]);
    if events == [] {
      assert all[1..] == [];
    } else {
      assert all[1..] == events[1..] + [e];
      RunLast(Step(s, all[0]), events[1..], e);
    }
  }

  /** A run that starts and ends with these events, with the given ones in between. */
  function Around(first: Event, events: seq<Event>, last: Event): seq<Event> {
    [first] + (events + [last])
  }

  lemma AroundRun(s: System, first: Event, events: seq<Event>, last: Event)
    requires Inv(s) && AllAllowed(s, Around(first, events, last))
    ensures Allowed(s, first) && Inv(Step(s, first)) && AllAllowed(Step(s, first), events)
    ensures Inv(Run(Step(s, first), events)) && Allowed(Run(Step(s, first), events), last)
    ensures Run(s, Around(first, events, last)) == Step(Run(Step(s, first), events), last)
  {
    hide Allowed, Step;
    var all := Around(first, events, last);
    StepInv(s, first);
    assert all[1..] == events + [last];
    RunLast(Step(s, first), events, last);
  }

  /** Switch-away-and-back identity: whatever happens in between, a thread resumes with the
      registers, the stack pointer and the return address of its last switch away, and its stack
      as the switch left it. */
  lemma Resumes(s: System, to: nat, ret: Word, events: seq<Event>, ret': Word)
    requires Inv(s) && AllAllowed(s, Around(Switch(to, ret), events, Switch(s.current, ret')))
               && Leaves(events, s.current)
    ensures s.cpu.regs.esp >= 8
    ensures Run(s, Around(Switch(to, ret), events, Switch(s.current, ret'))).cpu.regs == AtReturn(s.cpu.regs, ret)
  {
    AroundRun(s, Switch(to, ret), events, Switch(s.current, ret'));
    var s1 := Step(s, Switch(to, ret));
    assert s1.saved[s.current] == AtReturn(s.cpu.regs, ret);
    hide Step, Inv;
    RunLeaves(s1, events, s.current);
    SwitchInv(Run(s1, events), s.current, ret');
  }

  /** The first switch into a new thread lands in the trampoline with zeroed registers and an empty
      stack. */
  lemma FirstSwitch(s: System, id: nat, p: Place, events: seq<Event>, ret: Word)
    requires Inv(s) && AllAllowed(s, Around(Create(id, p), events, Switch(id, ret))) && Leaves(events, id)
    ensures Run(s, Around(Create(id, p), events, Switch(id, ret))).cpu.regs == Regs(0, 0, 0, 0, p.hi, s.trampoline)
  {
    AroundRun(s, Create(id, p), events, Switch(id, ret));
    var s1 := Step(s, Create(id, p));
    assert id in s1.saved && s1.saved[id] == Regs(0, 0, 0, 0, p.hi, s.trampoline);
    hide Step, Inv;
    RunLeaves(s1, events, id);
    SwitchInv(Run(s1, events), id, ret);
  }
}
