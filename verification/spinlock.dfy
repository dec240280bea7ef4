/** The spinlock as a protocol among any number of cores, one machine step at a time, with
    interrupts arriving wherever they are enabled. */
module Spinlock {
  import opened Words

  /** Where a core is: outside the spinlock's code, past the read of the flags, past `cli`, or past
      the exchange that releases. */
  datatype Pc = Outside | FlagsRead(lock: nat, flags: bool) | Spinning(lock: nat, flags: bool) | Unlocked(flags: bool)

  /** What a core has to come back to: the release of a lock it holds, with the interrupt flag read
      when it was acquired, or the place where an interrupt arrived. */
  datatype Context = Held(lock: nat, flags: bool) | Handler(pc: Pc)

  /** `interrupts` is the interrupt flag. */
  datatype Core = Core(pc: Pc, interrupts: bool, stack: seq<Context>)

  datatype System = System(locks: seq<Word>, cores: seq<Core>)

  /** The steps of core c. `Unlock` names the context to release, which need not be the last. */
  datatype Event =
    | ReadFlags(c: nat, lock: nat)
    | Cli(c: nat)
    | Xchg(c: nat)
    | Unlock(c: nat, i: nat)
    | Popf(c: nat)
    | Interrupt(c: nat)
    | Iret(c: nat)

  /** The code now running on the core, be it a handler or not, holds the lock. */
  ghost predicate HoldsHere(core: Core, lock: nat) {
    exists i :: 0 <= i < |core.stack| && InContext(core, i) && core.stack[i].lock == lock
  }

  /** Context i is a lock taken since the last interrupt. */
  ghost predicate InContext(core: Core, i: nat) {
    && i < |core.stack| && core.stack[i].Held?
    && forall j | i < j < |core.stack| :: core.stack[j].Held?
  }

  /** A step is possible. Code acquires no lock that it holds itself, and releases only its own. */
  ghost predicate Enabled(s: System, e: Event) {
    e.c < |s.cores| &&
    var core := s.cores[e.c];
    match e
    case ReadFlags(c, lock) => core.pc == Outside && lock < |s.locks| && !HoldsHere(core, lock)
    case Cli(c) => core.pc.FlagsRead?
    case Xchg(c) => core.pc.Spinning? && core.pc.lock < |s.locks|
    case Unlock(c, i) => core.pc == Outside && InContext(core, i) && core.stack[i].lock < |s.locks|
    case Popf(c) => core.pc.Unlocked?
    case Interrupt(c) => core.interrupts
    case Iret(c) => core.pc == Outside && core.stack != [] && core.stack[|core.stack| - 1].Handler?
  }

  function Step(s: System, e: Event): System
    requires Enabled(s, e)
  {
    var core := s.cores[e.c];
    match e
    case ReadFlags(c, lock) => s.(cores := s.cores[c := core.(pc := FlagsRead(lock, core.interrupts))])
    case Cli(c) => s.(cores := s.cores[c := core.(pc := Spinning(core.pc.lock, core.pc.flags), interrupts := false)])
    case Xchg(c) =>
      var l := core.pc.lock;
      System(s.locks[l := 1],
             if s.locks[l] != 0 then s.cores
             else s.cores[c := core.(pc := Outside, stack := core.stack + [Held(l, core.pc.flags)])])
    case Unlock(c, i) =>
      System(s.locks[core.stack[i].lock := 0],
             s.cores[c := core.(pc := Unlocked(core.stack[i].flags), stack := RemoveAt(core.stack, i))])
    case Popf(c) => s.(cores := s.cores[c := core.(pc := Outside, interrupts := core.pc.flags)])
    case Interrupt(c) => s.(cores := s.cores[c := Core(Outside, false, core.stack + [Handler(core.pc)])])
    case Iret(c) =>
      var n := |core.stack| - 1;
      s.(cores := s.cores[c := Core(core.stack[n].pc, true, core.stack[..n])])
  }

  /** Context i of core c holds the lock. */
  ghost predicate Holds(s: System, c: nat, i: nat, lock: nat) {
    && c < |s.cores| && i < |s.cores[c].stack|
    && s.cores[c].stack[i].Held? && s.cores[c].stack[i].lock == lock
  }

  ghost predicate Taken(s: System, lock: nat) {
    exists c: nat, i: nat :: Holds(s, c, i, lock)
  }

  /** One holder at most, and the lock's word is 1 exactly while there is one. */
  ghost predicate Exclusive(s: System) {
    && (forall lock | 0 <= lock < |s.locks| :: s.locks[lock] == if Taken(s, lock) then 1 else 0)
    && (forall c: nat, i: nat, lock: nat | Holds(s, c, i, lock) :: lock < |s.locks|)
    && (forall c: nat, i: nat, c': nat, i': nat, lock: nat | Holds(s, c, i, lock) && Holds(s, c', i', lock) ::
          c == c' && i == i')
  }

  lemma SameHolders(s: System, s': System)
    requires Exclusive(s) && s'.locks == s.locks
    requires forall c: nat, i: nat, lock: nat :: Holds(s', c, i, lock) <==> Holds(s, c, i, lock)
    ensures Exclusive(s')
  {
    forall lock | 0 <= lock < |s.locks| ensures Taken(s', lock) <==> Taken(s, lock) {
      if Taken(s, lock) {
        var c: nat, i: nat :| Holds(s, c, i, lock);
        assert Holds(s', c, i, lock);
      }
      if Taken(s', lock) {
        var c: nat, i: nat :| Holds(s', c, i, lock);
        assert Holds(s, c, i, lock);
      }
    }
  }

  lemma XchgExclusive(s: System, c: nat)
    requires Exclusive(s) && Enabled(s, Xchg(c))
    ensures Exclusive(Step(s, Xchg(c)))
  {
    var s', l := Step(s, Xchg(c)), s.cores[c].pc.lock;
    if s.locks[l] != 0 {
      assert s' == s;
    } else {
      var n := |s.cores[c].stack|;
      assert Holds(s', c, n, l);
      forall c': nat, i: nat, lock: nat
        ensures Holds(s', c', i, lock) <==> Holds(s, c', i, lock) || (c' == c && i == n && lock == l)
      {}
      forall lock | 0 <= lock < |s.locks| && lock != l ensures Taken(s', lock) <==> Taken(s, lock) {
        if Taken(s, lock) {
          var c': nat, i: nat :| Holds(s, c', i, lock);
          assert Holds(s', c', i, lock);
        }
      }
    }
  }

  lemma UnlockExclusive(s: System, c: nat, i: nat)
    requires Exclusive(s) && Enabled(s, Unlock(c, i))
    ensures Exclusive(Step(s, Unlock(c, i)))
  {
    var s', l := Step(s, Unlock(c, i)), s.cores[c].stack[i].lock;
    assert Holds(s, c, i, l);
    forall c': nat, k: nat, lock: nat | Holds(s', c', k, lock)
      ensures Holds(s, c', if c' == c && k >= i then k + 1 else k, lock) && lock != l
    {
      assert Holds(s, c', if c' == c && k >= i then k + 1 else k, lock);
    }
    forall lock | 0 <= lock < |s.locks| && lock != l ensures Taken(s', lock) <==> Taken(s, lock) {
      if Taken(s, lock) {
        var c': nat, k: nat :| Holds(s, c', k, lock);
        assert Holds(s', c', if c' == c && k > i then k - 1 else k, lock);
      }
    }
  }

  /** Mutual exclusion, step by step, whatever order locks are released in. */
  lemma StepExclusive(s: System, e: Event)
    requires Exclusive(s) && Enabled(s, e)
    ensures Exclusive(Step(s, e))
  {
    match e
    case Xchg(c) => XchgExclusive(s, c);
    case Unlock(c, i) => UnlockExclusive(s, c, i);
    case _ => SameHolders(s, Step(s, e));
  }

  ghost predicate AllEnabled(s: System, events: seq<Event>)
    decreases |events|
  {
    events != [] ==> Enabled(s, events[0]) && AllEnabled(Step(s, events[0]), events[1..])
  }

  ghost function Run(s: System, events: seq<Event>): System
    requires AllEnabled(s, events)
    decreases |events|
  {
    if events == [] then s else Run(Step(s, events[0]), events[1..])
  }

  /** All locks free, no core in the spinlock's code or in a handler. */
  ghost predicate Initial(s: System) {
    && (forall l | 0 <= l < |s.locks| :: s.locks[l] == 0)
    && (forall c | 0 <= c < |s.cores| :: s.cores[c].pc == Outside && s.cores[c].stack == [])
  }

  /** On every run, under every interleaving, at most one core holds a lock, and the lock's word is
      1 exactly while one does. */
  lemma {:induction false} AlwaysExclusive(s: System, events: seq<Event>)
    requires Exclusive(s) && AllEnabled(s, events)
    ensures Exclusive(Run(s, events))
    decreases |events|
  {
    if events != [] {
      StepExclusive(s, events[0]);
      AlwaysExclusive(Step(s, events[0]), events[1..]);
    }
  }

  lemma InitialExclusive(s: System)
    requires Initial(s)
    ensures Exclusive(s)
  {}

  /** Mutual exclusion from the start: two contexts that hold one lock are the same context, and the
      lock's word is then 1. */
  lemma OneHolder(s: System, events: seq<Event>, c: nat, i: nat, c': nat, i': nat, lock: nat)
    requires Initial(s) && AllEnabled(s, events)
    requires Holds(Run(s, events), c, i, lock) && Holds(Run(s, events), c', i', lock)
    ensures c' == c && i' == i && lock < |Run(s, events).locks| && Run(s, events).locks[lock] == 1
  {
    InitialExclusive(s);
    AlwaysExclusive(s, events);
  }

  ghost predicate LastHeld(core: Core) {
    core.stack != [] && core.stack[|core.stack| - 1].Held?
  }

  /** A release that turns interrupts on again leaves no other lock held in its context. */
  ghost predicate Careful(s: System, e: Event)
    requires Enabled(s, e)
  {
    e.Unlock? ==>
      var core := s.cores[e.c];
      core.stack[e.i].flags ==> !LastHeld(core.(stack := RemoveAt(core.stack, e.i)))
  }

  ghost predicate AllCareful(s: System, events: seq<Event>)
    requires AllEnabled(s, events)
    decreases |events|
  {
    events != [] ==> Careful(s, events[0]) && AllCareful(Step(s, events[0]), events[1..])
  }

  /** The release is of the lock taken last. */
  ghost predicate Nested(s: System, e: Event)
    requires Enabled(s, e)
  {
    e.Unlock? ==> e.i == |s.cores[e.c].stack| - 1
  }

  ghost predicate AllNested(s: System, events: seq<Event>)
    requires AllEnabled(s, events)
    decreases |events|
  {
    events != [] ==> Nested(s, events[0]) && AllNested(Step(s, events[0]), events[1..])
  }

  /** No lock is held below an interrupt; only the first lock taken may have found interrupts on. */
  ghost predicate StackOk(stack: seq<Context>) {
    forall i | 0 <= i < |stack| :: ContextOk(stack, i)
  }

  ghost predicate ContextOk(stack: seq<Context>, i: nat)
    requires i < |stack|
  {
    match stack[i]
    case Held(lock, flags) => i > 0 && stack[i - 1].Held? ==> !flags
    case Handler(pc) =>
      && (pc == Outside || (pc.FlagsRead? && pc.flags))
      && (i > 0 ==> stack[i - 1].Handler?)
  }

  ghost predicate CoreOk(core: Core) {
    && StackOk(core.stack)
    && (LastHeld(core) ==> !core.interrupts)
    && (match core.pc
        case Outside => true
        case FlagsRead(lock, flags) => flags == core.interrupts
        case Spinning(lock, flags) => !core.interrupts && (LastHeld(core) ==> !flags)
        case Unlocked(flags) => !core.interrupts && (LastHeld(core) ==> !flags))
    && (core.pc.FlagsRead? || core.pc.Spinning? ==> !HoldsHere(core, core.pc.lock))
  }

  ghost predicate CoresOk(s: System) {
    forall c | 0 <= c < |s.cores| :: CoreOk(s.cores[c])
  }

  lemma {:induction false} HeldUpTo(core: Core, i: nat)
    requires CoreOk(core) && i < |core.stack| && core.stack[i].Held?
    ensures LastHeld(core) && InContext(core, i)
    decreases |core.stack| - i
  {
    if i + 1 < |core.stack| {
      assert ContextOk(core.stack, i + 1);
      HeldUpTo(core, i + 1);
    }
  }

  lemma StepCoresOk(s: System, e: Event)
    requires CoresOk(s) && Enabled(s, e) && Careful(s, e)
    ensures CoresOk(Step(s, e))
  {
    var core, core' := s.cores[e.c], Step(s, e).cores[e.c];
    assert CoreOk(core);
    assert CoreOk(core') by {
      match e
      case ReadFlags(c, lock) =>
        assert forall i :: InContext(core', i) <==> InContext(core, i);
      case Cli(c) =>
        assert forall i :: InContext(core', i) <==> InContext(core, i);
      case Xchg(c) => XchgOk(core, core.pc.lock, core.pc.flags);
      case Unlock(c, i) => UnlockOk(core, i);
      case Popf(c) =>
      case Interrupt(c) => InterruptOk(core);
      case Iret(c) => IretOk(core);
    }
  }

  lemma InterruptOk(core: Core)
    requires CoreOk(core) && core.interrupts
    ensures CoreOk(Core(Outside, false, core.stack + [Handler(core.pc)]))
  {
    var stack := core.stack + [Handler(core.pc)];
    forall i | 0 <= i < |stack| ensures ContextOk(stack, i) {
      assert i < |core.stack| ==> ContextOk(core.stack, i);
    }
  }

  lemma IretOk(core: Core)
    requires CoreOk(core) && core.stack != [] && core.stack[|core.stack| - 1].Handler?
    ensures CoreOk(Core(core.stack[|core.stack| - 1].pc, true, core.stack[..|core.stack| - 1]))
  {
    var n := |core.stack| - 1;
    var core' := Core(core.stack[n].pc, true, core.stack[..n]);
    assert ContextOk(core.stack, n);
    PrefixOk(core.stack, n);
    assert !LastHeld(core');
  }

  lemma PrefixOk(stack: seq<Context>, n: nat)
    requires StackOk(stack) && n <= |stack|
    ensures StackOk(stack[..n])
  {
    forall i | 0 <= i < n ensures ContextOk(stack[..n], i) {
      assert ContextOk(stack, i);
    }
  }

  lemma XchgOk(core: Core, lock: nat, flags: bool)
    requires CoreOk(core) && core.pc == Spinning(lock, flags)
    ensures CoreOk(core.(pc := Outside, stack := core.stack + [Held(lock, flags)]))
  {
    var stack := core.stack + [Held(lock, flags)];
    forall i | 0 <= i < |stack| ensures ContextOk(stack, i) {
      assert i < |core.stack| ==> ContextOk(core.stack, i);
    }
  }

  lemma UnlockOk(core: Core, i: nat)
    requires CoreOk(core) && InContext(core, i)
    requires core.stack[i].flags ==> !LastHeld(core.(stack := RemoveAt(core.stack, i)))
    ensures CoreOk(core.(pc := Unlocked(core.stack[i].flags), stack := RemoveAt(core.stack, i)))
  {
    var stack := RemoveAt(core.stack, i);
    HeldUpTo(core, i);
    forall k | 0 <= k < |stack| ensures ContextOk(stack, k) {
      assert ContextOk(core.stack, k) && ContextOk(core.stack, k + 1);
    }
  }

  /** While a core holds a lock its interrupts are off, and no core waits for a lock that it holds
      itself, not even one taken by the code it interrupted. */
  lemma CoreSafe(s: System, c: nat, i: nat, lock: nat)
    requires CoresOk(s) && Holds(s, c, i, lock)
    ensures !s.cores[c].interrupts
    ensures s.cores[c].pc.FlagsRead? || s.cores[c].pc.Spinning? ==> s.cores[c].pc.lock != lock
  {
    HeldUpTo(s.cores[c], i);
  }

  lemma {:induction false} CarefulRun(s: System, events: seq<Event>)
    requires CoresOk(s) && AllEnabled(s, events) && AllCareful(s, events)
    ensures CoresOk(Run(s, events))
    decreases |events|
  {
    if events != [] {
      StepCoresOk(s, events[0]);
      CarefulRun(Step(s, events[0]), events[1..]);
    }
  }

  /** Nested releases are careful. */
  lemma NestedIsCareful(s: System, e: Event)
    requires CoresOk(s) && Enabled(s, e) && Nested(s, e)
    ensures Careful(s, e)
  {
    if e.Unlock? {
      var core := s.cores[e.c];
      assert CoreOk(core);
      assert ContextOk(core.stack, e.i);
    }
  }

  lemma {:induction false} NestedRun(s: System, events: seq<Event>)
    requires CoresOk(s) && AllEnabled(s, events) && AllNested(s, events)
    ensures AllCareful(s, events)
    decreases |events|
  {
    if events != [] {
      NestedIsCareful(s, events[0]);
      StepCoresOk(s, events[0]);
      NestedRun(Step(s, events[0]), events[1..]);
    }
  }

  /** Interrupts are off on every core that holds a lock. */
  ghost predicate OffWhileHeld(s: System) {
    forall c: nat, i: nat, lock: nat | Holds(s, c, i, lock) :: !s.cores[c].interrupts
  }

  /** The exact condition, for one release: the flag it restores keeps interrupts off as long as
      another lock is held if and only if the release is careful. */
  lemma UnlockExactly(s: System, c: nat, i: nat)
    requires CoresOk(s) && Enabled(s, Unlock(c, i))
    ensures Enabled(Step(s, Unlock(c, i)), Popf(c))
    ensures OffWhileHeld(Step(Step(s, Unlock(c, i)), Popf(c))) <==> Careful(s, Unlock(c, i))
  {
    var e := Unlock(c, i);
    var s1 := Step(s, e);
    var s2 := Step(s1, Popf(c));
    if Careful(s, e) {
      StepCoresOk(s, e);
      StepCoresOk(s1, Popf(c));
      CoresOff(s2);
    } else {
      var n := |s2.cores[c].stack| - 1;
      assert Holds(s2, c, n, s2.cores[c].stack[n].lock);
    }
  }

  lemma CoresOff(s: System)
    requires CoresOk(s)
    ensures OffWhileHeld(s)
  {
    forall c: nat, i: nat, lock: nat | Holds(s, c, i, lock) ensures !s.cores[c].interrupts {
      CoreSafe(s, c, i, lock);
    }
  }

  /** Interrupts are off on cores that hold a lock in every state of the run, and in the state that
      each release leads to: having released, a core can only restore its flags next. */
  ghost predicate OffAlong(s: System, events: seq<Event>)
    requires AllEnabled(s, events)
    decreases |events|
  {
    && OffWhileHeld(s)
    && (events != [] ==>
          && (events[0].Unlock? ==> OffWhileHeld(Step(Step(s, events[0]), Popf(events[0].c))))
          && OffAlong(Step(s, events[0]), events[1..]))
  }

  /** The exact condition, for runs: under every interleaving, interrupts are off throughout every
      hold if and only if every release is careful. */
  lemma {:induction false} OffExactly(s: System, events: seq<Event>)
    requires CoresOk(s) && AllEnabled(s, events)
    ensures OffAlong(s, events) <==> AllCareful(s, events)
    decreases |events|
  {
    CoresOff(s);
    if events != [] {
      var e := events[0];
      if e.Unlock? {
        UnlockExactly(s, e.c, e.i);
      }
      if Careful(s, e) {
        StepCoresOk(s, e);
        OffExactly(Step(s, e), events[1..]);
      }
    }
  }

  lemma InitialCoresOk(s: System)
    requires Initial(s)
    ensures CoresOk(s)
  {}

  /** On every run whose releases are careful, under every interleaving: interrupts are off on a core
      as long as it holds a lock, and it never waits for a lock that it holds itself. */
  lemma HeldMeansOff(s: System, events: seq<Event>, c: nat, i: nat, lock: nat)
    requires Initial(s) && AllEnabled(s, events) && AllCareful(s, events) && Holds(Run(s, events), c, i, lock)
    ensures !Run(s, events).cores[c].interrupts
    ensures var pc := Run(s, events).cores[c].pc; pc.FlagsRead? || pc.Spinning? ==> pc.lock != lock
  {
    CarefulRun(s, events);
    CoreSafe(Run(s, events), c, i, lock);
  }

  /** In particular on every run whose releases are nested. */
  lemma NestedMeansOff(s: System, events: seq<Event>)
    requires Initial(s) && AllEnabled(s, events) && AllNested(s, events)
    ensures OffAlong(s, events)
  {
    InitialCoresOk(s);
    NestedRun(s, events);
    OffExactly(s, events);
  }

  /** The interrupt flag that the code at depth d of the core's contexts has or will get back. */
  ghost function FlagAt(core: Core, d: nat): bool
    requires d <= |core.stack|
  {
    if d < |core.stack| then
      match core.stack[d]
      case Held(lock, flags) => flags
      case Handler(pc) => true
    else
      match core.pc
      case Outside => core.interrupts
      case FlagsRead(lock, flags) => flags
      case Spinning(lock, flags) => flags
      case Unlocked(flags) => flags
  }

  /** Above the lock released all saved flags are off, and so is its own unless it is the last. */
  lemma UnlockKeepsFlag(core: Core, i: nat, d: nat)
    requires CoreOk(core) && InContext(core, i) && d < |core.stack|
    requires core.stack[i].flags ==> !LastHeld(core.(stack := RemoveAt(core.stack, i)))
    ensures FlagAt(core.(pc := Unlocked(core.stack[i].flags), stack := RemoveAt(core.stack, i)), d) == FlagAt(core, d)
  {
    var n := |core.stack| - 1;
    assert i < n ==> core.stack[n].Held? && !core.stack[i].flags;
    assert d > i ==> ContextOk(core.stack, d) && core.stack[d - 1].Held?;
    assert i <= d < n ==> ContextOk(core.stack, d + 1) && core.stack[d].Held?;
  }

  lemma StepKeepsFlag(s: System, e: Event, c: nat, d: nat)
    requires CoresOk(s) && Enabled(s, e) && Careful(s, e) && c < |s.cores|
    requires d <= |s.cores[c].stack| && d <= |Step(s, e).cores[c].stack|
    ensures FlagAt(Step(s, e).cores[c], d) == FlagAt(s.cores[c], d)
  {
    var core := s.cores[c];
    assert CoreOk(core);
    if e.Iret? {
      assert ContextOk(s.cores[e.c].stack, |s.cores[e.c].stack| - 1);
    } else if e.Unlock? && e.c == c {
      UnlockKeepsFlag(core, e.i, d);
    }
  }

  /** During the run core c never leaves depth d. */
  ghost predicate StaysAbove(s: System, events: seq<Event>, c: nat, d: nat)
    requires AllEnabled(s, events) && c < |s.cores|
    decreases |events|
  {
    d <= |s.cores[c].stack| && (events != [] ==> StaysAbove(Step(s, events[0]), events[1..], c, d))
  }

  lemma {:induction false} RunKeepsFlag(s: System, events: seq<Event>, c: nat, d: nat)
    requires CoresOk(s) && AllEnabled(s, events) && AllCareful(s, events)
    requires c < |s.cores| && StaysAbove(s, events, c, d)
    ensures |Run(s, events).cores| == |s.cores| && d <= |Run(s, events).cores[c].stack|
    ensures FlagAt(Run(s, events).cores[c], d) == FlagAt(s.cores[c], d)
    decreases |events|
  {
    if events != [] {
      StepCoresOk(s, events[0]);
      StepKeepsFlag(s, events[0], c, d);
      RunKeepsFlag(Step(s, events[0]), events[1..], c, d);
    }
  }

  /** Code that has released, carefully, all that it acquired has its interrupt flag back, whatever
      interrupts came in between. */
  lemma FlagRestored(s: System, events: seq<Event>, c: nat)
    requires CoresOk(s) && AllEnabled(s, events) && AllCareful(s, events)
    requires c < |s.cores| && StaysAbove(s, events, c, |s.cores[c].stack|) && c < |Run(s, events).cores|
    requires s.cores[c].pc == Outside && Run(s, events).cores[c].pc == Outside
    requires |Run(s, events).cores[c].stack| == |s.cores[c].stack|
    ensures Run(s, events).cores[c].interrupts == s.cores[c].interrupts
  {
    RunKeepsFlag(s, events, c, |s.cores[c].stack|);
  }

  lemma {:induction false} RunAppend(s: System, a: seq<Event>, b: seq<Event>)
    requires AllEnabled(s, a) && AllEnabled(Run(s, a), b)
    ensures AllEnabled(s, a + b) && Run(s, a + b) == Run(Run(s, a), b)
    ensures AllNested(s, a + b) ==> AllNested(Run(s, a), b)
    decreases |a|
  {
    if a == [] {
      assert a + b == b;
    } else {
      assert (a + b)[1..] == a[1..] + b;
      RunAppend(Step(s, a[0]), a[1..], b);
    }
  }

  lemma RunOne(s: System, e: Event)
    requires Enabled(s, e)
    ensures AllEnabled(s, [e]) && Run(s, [e]) == Step(s, e) && (AllNested(s, [e]) <==> Nested(s, e))
  {}

  function Acquire(c: nat, lock: nat): seq<Event> {
    [ReadFlags(c, lock)] + [Cli(c)] + [Xchg(c)]
  }

  /** The three steps of `spinlock_acquire` on a free lock. */
  lemma AcquireRun(s: System, c: nat, lock: nat)
    requires c < |s.cores| && lock < |s.locks| && s.locks[lock] == 0
    requires s.cores[c].pc == Outside && !HoldsHere(s.cores[c], lock)
    ensures AllEnabled(s, Acquire(c, lock))
    ensures Run(s, Acquire(c, lock))
         == System(s.locks[lock := 1],
                   s.cores[c := Core(Outside, false, s.cores[c].stack + [Held(lock, s.cores[c].interrupts)])])
  {
    var s1 := Step(s, ReadFlags(c, lock));
    var s2 := Step(s1, Cli(c));
    RunOne(s, ReadFlags(c, lock));
    RunOne(s1, Cli(c));
    RunOne(s2, Xchg(c));
    RunAppend(s, [ReadFlags(c, lock)], [Cli(c)]);
    RunAppend(s, [ReadFlags(c, lock)] + [Cli(c)], [Xchg(c)]);
  }

  lemma FirstTaken(s: System)
    requires s == System([0, 0], [Core(Outside, true, [])])
    ensures AllEnabled(s, Acquire(0, 0)) && Run(s, Acquire(0, 0)) ==
              System([1, 0], [Core(Outside, false, [Held(0, true)])])
  {
    hide AllEnabled, Run, Acquire;
    AcquireRun(s, 0, 0);
    assert [0, 0][0 := 1] == [1, 0];
    assert [] + [Held(0, true)] == [Held(0, true)];
    assert s.cores[0 := Core(Outside, false, [Held(0, true)])] == [Core(Outside, false, [Held(0, true)])];
  }

  lemma SecondTaken(s: System)
    requires s == System([1, 0], [Core(Outside, false, [Held(0, true)])])
    ensures AllEnabled(s, Acquire(0, 1))
    ensures Run(s, Acquire(0, 1)) == System([1, 1], [Core(Outside, false, [Held(0, true), Held(1, false)])])
  {
    hide AllEnabled, Run, Acquire;
    AcquireRun(s, 0, 1);
    assert [1, 0][1 := 1] == [1, 1];
    assert [Held(0, true)] + [Held(1, false)] == [Held(0, true), Held(1, false)];
    assert s.cores[0 := Core(Outside, false, [Held(0, true), Held(1, false)])]
        == [Core(Outside, false, [Held(0, true), Held(1, false)])];
  }

  /** Taking two locks and releasing the first one first turns interrupts on while the second is
      held. */
  lemma NotNestedUnsafe() returns (s: System, events: seq<Event>)
    ensures Initial(s) && AllEnabled(s, events) && !AllNested(s, events)
    ensures Holds(Run(s, events), 0, 0, 1) && Run(s, events).cores[0].interrupts
  {
    hide AllEnabled, Run, AllNested, Acquire;
    s := System([0, 0], [Core(Outside, true, [])]);
    FirstTaken(s);
    var s1 := Run(s, Acquire(0, 0));
    SecondTaken(s1);
    ReleaseFirst(Run(s1, Acquire(0, 1)));
    RunAppend(s, Acquire(0, 0), Acquire(0, 1));
    RunAppend(s, Acquire(0, 0) + Acquire(0, 1), [Unlock(0, 0)] + [Popf(0)]);
    events := Acquire(0, 0) + Acquire(0, 1) + ([Unlock(0, 0)] + [Popf(0)]);
  }

  lemma ReleaseFirst(s: System)
    requires s == System([1, 1], [Core(Outside, false, [Held(0, true), Held(1, false)])])
    ensures AllEnabled(s, [Unlock(0, 0)] + [Popf(0)]) && !AllNested(s, [Unlock(0, 0)] + [Popf(0)])
    ensures Run(s, [Unlock(0, 0)] + [Popf(0)]) == System([0, 1], [Core(Outside, true, [Held(1, false)])])
  {
    var s1 := Step(s, Unlock(0, 0));
    assert s1.locks == [0, 1] && s1.cores[0].stack == [Held(1, false)];
    assert s1.cores == [Core(Unlocked(true), false, [Held(1, false)])];
    RunOne(s, Unlock(0, 0));
    RunOne(s1, Popf(0));
    RunAppend(s, [Unlock(0, 0)], [Popf(0)]);
    assert ([Unlock(0, 0)] + [Popf(0)])[0] == Unlock(0, 0);
  }
}
