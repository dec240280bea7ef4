/** The scheduler's ring as a sequence, the running thread first, and what holds over every run of
    yields, additions and state changes. */
module Ring {
  import opened Words
  import opened Ticks

  datatype ThreadState = Running | Ready | Blocked | Terminated

  datatype Entry = Entry(id: nat, state: ThreadState, wakeAt: Word)

  predicate Asleep(e: Entry, now: Word) {
    e.state == Blocked && Before(now, e.wakeAt)
  }

  predicate Runnable(e: Entry, now: Word) {
    e.state != Terminated && !Asleep(e, now)
  }

  /** The first thread from index i on that can run, or the ring's length. */
  function FirstRunnable(ring: seq<Entry>, now: Word, i: nat): (k: nat)
    requires i <= |ring|
    ensures i <= k <= |ring|
    ensures k < |ring| ==> Runnable(ring[k], now)
    ensures forall j | i <= j < k :: !Runnable(ring[j], now)
    decreases |ring| - i
  {
    if i == |ring| || Runnable(ring[i], now) then i else FirstRunnable(ring, now, i + 1)
  }

  function Survivors(s: seq<Entry>): (r: seq<Entry>)
    ensures forall e | e in r :: e in s && e.state != Terminated
  {
    if s == [] then []
    else Survivors(s[..|s| - 1]) + if s[|s| - 1].state == Terminated then [] else [s[|s| - 1]]
  }

  function DeadIds(s: seq<Entry>): seq<nat> {
    if s == [] then []
    else DeadIds(s[..|s| - 1]) + if s[|s| - 1].state == Terminated then [s[|s| - 1].id] else []
  }

  function Woken(e: Entry): Entry {
    if e.state == Blocked then e.(state := Ready) else e
  }

  /** The ring after a yield: the first runnable thread leads, the running one and the survivors
      among those passed follow at the end. */
  function Yielded(ring: seq<Entry>, now: Word): (r: seq<Entry>)
    requires ring != []
    ensures r != []
  {
    var k := FirstRunnable(ring, now, 1);
    if k == |ring| then [ring[0]] + Survivors(ring[1..])
    else [Woken(ring[k])] + ring[k + 1..] + [ring[0]] + Survivors(ring[1..k])
  }

  /** The threads that a yield destroys, in the order passed. */
  function Reaped(ring: seq<Entry>, now: Word): seq<nat>
    requires ring != []
  {
    DeadIds(ring[1..FirstRunnable(ring, now, 1)])
  }

  function Ids(s: seq<Entry>): (r: seq<nat>)
    ensures |r| == |s|
    ensures forall i | 0 <= i < |s| :: r[i] == s[i].id
  {
    seq(|s|, i requires 0 <= i < |s| => s[i].id)
  }

  /** The sequence without the elements of another one. */
  function Excluding(s: seq<nat>, gone: seq<nat>): seq<nat> {
    if s == [] then []
    else Excluding(s[..|s| - 1], gone) + if s[|s| - 1] in gone then [] else [s[|s| - 1]]
  }

  lemma IdsAppend(s: seq<Entry>, t: seq<Entry>)
    ensures Ids(s + t) == Ids(s) + Ids(t)
  {}

  lemma {:induction false} ExcludingAppend(s: seq<nat>, t: seq<nat>, gone: seq<nat>)
    ensures Excluding(s + t, gone) == Excluding(s, gone) + Excluding(t, gone)
  {
    if t == [] {
      assert s + t == s;
    } else {
      var t0 := t[..|t| - 1];
      ExcludingAppend(s, t0, gone);
      assert (s + t)[..|s + t| - 1] == s + t0;
    }
  }

  lemma {:induction false} ExcludingNone(s: seq<nat>, gone: seq<nat>)
    requires forall x | x in s :: x !in gone
    ensures Excluding(s, gone) == s
  {
    if s != [] {
      ExcludingNone(s[..|s| - 1], gone);
      assert s == s[..|s| - 1] + [s[|s| - 1]];
    }
  }

  /** A dead id is the id of a terminated entry, and the other way round. */
  lemma {:induction false} DeadIdsAre(s: seq<Entry>)
    ensures forall i | 0 <= i < |s| && s[i].state == Terminated :: s[i].id in DeadIds(s)
    ensures forall x | x in DeadIds(s) :: exists i :: 0 <= i < |s| && s[i].state == Terminated && s[i].id == x
  {
    if s != [] {
      var s0 := s[..|s| - 1];
      DeadIdsAre(s0);
      forall x | x in DeadIds(s) ensures exists i :: 0 <= i < |s| && s[i].state == Terminated && s[i].id == x {
        if x in DeadIds(s0) {
          var i :| 0 <= i < |s0| && s0[i].state == Terminated && s0[i].id == x;
          assert s[i] == s0[i];
        } else {
          assert s[|s| - 1].id == x;
        }
      }
    }
  }

  lemma {:induction false} SurvivorsExclude(s: seq<Entry>, gone: seq<nat>)
    requires forall i | 0 <= i < |s| :: s[i].id in gone <==> s[i].state == Terminated
    ensures Ids(Survivors(s)) == Excluding(Ids(s), gone)
  {
    if s != [] {
      var s0 := s[..|s| - 1];
      SurvivorsExclude(s0, gone);
      assert Ids(s)[..|s| - 1] == Ids(s0);
      IdsAppend(Survivors(s0), [s[|s| - 1]]);
    }
  }

  /** Terminated threads that are passed are destroyed, and no others. */
  lemma ReapedAre(ring: seq<Entry>, now: Word, i: nat)
    requires ring != [] && Distinct(Ids(ring)) && i < |ring|
    ensures ring[i].id in Reaped(ring, now) <==> 0 < i < FirstRunnable(ring, now, 1) && ring[i].state == Terminated
  {
    var k := FirstRunnable(ring, now, 1);
    var passed := ring[1..k];
    DeadIdsAre(passed);
    if ring[i].id in Reaped(ring, now) {
      var j :| 0 <= j < |passed| && passed[j].state == Terminated && passed[j].id == ring[i].id;
      assert Ids(ring)[j + 1] == Ids(ring)[i];
    }
    if 0 < i < k && ring[i].state == Terminated {
      assert passed[i - 1] == ring[i];
    }
  }

  /** Where the thread that yielded ends up. */
  function OldPlace(ring: seq<Entry>, now: Word): nat
    requires ring != []
  {
    |ring| - FirstRunnable(ring, now, 1)
  }

  /** The yielded ring is cut at the place of the thread that yielded. */
  lemma YieldedHalves(ring: seq<Entry>, now: Word)
    requires ring != []
    ensures OldPlace(ring, now) < |Yielded(ring, now)|
    ensures Yielded(ring, now)[OldPlace(ring, now)..] == [ring[0]] + Survivors(ring[1..FirstRunnable(ring, now, 1)])
    ensures Ids(Yielded(ring, now)[..OldPlace(ring, now)]) == Ids(ring[FirstRunnable(ring, now, 1)..])
  {
    hide Survivors, Runnable, Distinct;
    var k := FirstRunnable(ring, now, 1);
    var kept := [ring[0]] + Survivors(ring[1..k]);
    if k == |ring| {
      assert ring[1..] == ring[1..k];
      assert Yielded(ring, now) == kept;
    } else {
      var head := [Woken(ring[k])] + ring[k + 1..];
      assert Yielded(ring, now) == head + kept;
      WokenIds(ring, k);
    }
  }

  lemma WokenIds(ring: seq<Entry>, k: nat)
    requires k < |ring|
    ensures Ids([Woken(ring[k])] + ring[k + 1..]) == Ids(ring[k..])
  {}

  lemma ExcludingSplit(a: seq<nat>, b: seq<nat>, c: seq<nat>, gone: seq<nat>)
    requires forall x | x in a || x in c :: x !in gone
    ensures Excluding(a + b + c, gone) == a + Excluding(b, gone) + c
  {
    ExcludingNone(a, gone);
    ExcludingNone(c, gone);
    ExcludingAppend(a, b, gone);
    ExcludingAppend(a + b, c, gone);
  }

  lemma IdsParts(ring: seq<Entry>, k: nat)
    requires 1 <= k <= |ring|
    ensures Ids(ring) == [ring[0].id] + Ids(ring[1..k]) + Ids(ring[k..])
  {
    hide Ids;
    assert ring == [ring[0]] + ring[1..k] + ring[k..];
    IdsOne(ring[0]);
    IdsAppend([ring[0]], ring[1..k]);
    IdsAppend([ring[0]] + ring[1..k], ring[k..]);
  }

  /** Among the threads passed the destroyed ones are the terminated ones; no other is destroyed. */
  lemma ReapedParts(ring: seq<Entry>, now: Word, k: nat)
    requires ring != [] && Distinct(Ids(ring)) && k == FirstRunnable(ring, now, 1)
    ensures forall i | 0 <= i < |ring[1..k]| :: ring[1..k][i].id in Reaped(ring, now) <==>
              ring[1..k][i].state == Terminated
    ensures forall x | x in [ring[0].id] || x in Ids(ring[k..]) :: x !in Reaped(ring, now)
  {
    forall i | 0 <= i < |ring| ensures ring[i].id in Reaped(ring, now) <==> 0 < i < k && ring[i].state == Terminated {
      ReapedAre(ring, now, i);
    }
    forall x | x in Ids(ring[k..]) ensures x !in Reaped(ring, now) {
      var i :| 0 <= i < |ring[k..]| && Ids(ring[k..])[i] == x;
      assert ring[k + i].id == x;
    }
  }

  /** The ring stays one cycle: read from the thread that yielded, it is the old ring in its old
      order without the threads destroyed. */
  lemma YieldKeepsOrder(ring: seq<Entry>, now: Word)
    requires ring != [] && Distinct(Ids(ring))
    ensures OldPlace(ring, now) < |Yielded(ring, now)|
    ensures Ids(Yielded(ring, now)[OldPlace(ring, now)..] + Yielded(ring, now)[..OldPlace(ring, now)])
         == Excluding(Ids(ring), Reaped(ring, now))
  {
    hide Yielded, Survivors, Runnable, Reaped, Excluding, Distinct, Ids, OldPlace;
    var k, gone := FirstRunnable(ring, now, 1), Reaped(ring, now);
    var passed, rest := ring[1..k], ring[k..];
    ReapedParts(ring, now, k);
    SurvivorsExclude(passed, gone);
    ExcludingSplit([ring[0].id], Ids(passed), Ids(rest), gone);
    IdsParts(ring, k);
    YieldedHalves(ring, now);
    IdsAppend([ring[0]], Survivors(passed));
    IdsAppend([ring[0]] + Survivors(passed), Yielded(ring, now)[..OldPlace(ring, now)]);
    IdsOne(ring[0]);
  }

  /** A yield changes one entry at most: the thread that comes to the front becomes ready if it was
      blocked. Every other entry of the new ring is an old one. */
  lemma YieldKeepsEntries(ring: seq<Entry>, now: Word)
    requires ring != []
    ensures forall i | 0 < i < |Yielded(ring, now)| :: Yielded(ring, now)[i] in ring
    ensures exists e | e in ring ::
              || Yielded(ring, now)[0] == e
              || (e.state == Blocked && Yielded(ring, now)[0] == Entry(e.id, Ready, e.wakeAt))
  {
    var k, r := FirstRunnable(ring, now, 1), Yielded(ring, now);
    var passed := Survivors(ring[1..k]);
    assert k == |ring| ==> ring[1..k] == ring[1..] && r == [ring[0]] + passed;
    forall i | 0 < i < |r| ensures r[i] in ring {
      if k < |ring| && 0 < i < |ring| - k {
        assert r[i] == ring[k + i];
      } else if k < |ring| && i == |ring| - k {
        assert r[i] == ring[0];
      } else {
        assert r[i] in passed;
      }
    }
    assert (if k == |ring| then ring[0] else ring[k]) in ring;
  }

  lemma IdsOne(e: Entry)
    ensures Ids([e]) == [e.id]
  {}
}
