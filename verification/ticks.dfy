/** The tick counter as the kernel sees it, modulo 2^32, and the arithmetic of sleeping. */
module Ticks {
  import opened Words

  /** `(int32_t)(now - wake_at) < 0` */
  predicate Before(now: Word, wakeAt: Word) {
    Wrap(now + 0x1_0000_0000 - wakeAt) >= 0x8000_0000
  }

  /** `(ms * TIMER_HZ + 1000 - 1) / 1000`, in 32-bit arithmetic. */
  function SleepTicks(ms: Word): nat {
    Wrap(Wrap(ms * 100) + 999) / 1000
  }

  /** The ticks of 10 ms that cover ms milliseconds. */
  function CoveringTicks(ms: nat): nat {
    (ms + 9) / 10
  }

  function WakeAt(now: Word, ms: Word): Word {
    Wrap(now + SleepTicks(ms))
  }

  /** The computed tick count is the true one for exactly these durations. */
  lemma SleepTicksExact(ms: Word)
    ensures SleepTicks(ms) == CoveringTicks(ms) <==> ms <= 42949662
  {
    WrapSum(ms * 100, 999);
    if ms * 100 + 999 < 0x1_0000_0000 {
      assert Wrap(ms * 100 + 999) == ms * 100 + 999;
    } else {
      assert Wrap(ms * 100 + 999) <= ms * 100 + 999 - 0x1_0000_0000;
    }
  }

  /** The first duration too long: its sleep does not last at all. */
  lemma SleepTooLong()
    ensures SleepTicks(42949663) == 0 && CoveringTicks(42949663) == 4294967
  {}

  lemma WrapSum(x: nat, y: nat)
    ensures Wrap(Wrap(x) + y) == Wrap(x + y)
  {}

  /** Exactly when a thread with true deadline d counts as asleep at true tick t. */
  lemma BeforeWraps(t: nat, d: nat)
    ensures Before(Wrap(t), Wrap(d)) <==> (t - d) % 0x1_0000_0000 >= 0x8000_0000
  {
    var a, b := t / 0x1_0000_0000, d / 0x1_0000_0000;
    assert t - d == Wrap(t) + 0x1_0000_0000 - Wrap(d) + (a - b - 1) * 0x1_0000_0000;
    ModShift(Wrap(t) + 0x1_0000_0000 - Wrap(d), a - b - 1);
  }

  lemma ModShift(x: int, k: int)
    ensures (x + k * 0x1_0000_0000) % 0x1_0000_0000 == x % 0x1_0000_0000
  {}

  /** Within 2^31 ticks of the deadline the comparison is right, however often the counter has
      wrapped. */
  lemma BeforeIsBefore(t: nat, d: nat)
    requires d - 0x8000_0000 <= t < d + 0x8000_0000
    ensures Before(Wrap(t), Wrap(d)) <==> t < d
  {
    BeforeWraps(t, d);
  }
}
