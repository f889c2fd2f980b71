/** src/timeout.h: deadlines on a monotone clock and the tiered wait between two polls of a register. */
module Timeout {

  const SPIN_HARD_LIMIT: nat := 128
  const SPIN_YIELD_LIMIT: nat := 192
  const SPIN_SOFT_LIMIT: nat := 512

  const NS_PER_S: nat := 1000000000
  const SLEEP_NS: nat := 100000

  /** Full sleeps that fit into a timeout. */
  function SleepsIn(seconds: nat): (n: nat)
    ensures n == seconds * NS_PER_S / SLEEP_NS && n * SLEEP_NS == seconds * NS_PER_S
  {
    seconds * 10000
  }

  /**
   CLOCK_MONOTONIC, in nanoseconds. Between two readings any time at or above `grain` may pass; a sleep takes at
   least the time asked for. `readings` and `slept` are the history of what was read and what was slept.
   */
  class Clock {
    const grain: nat
    var now: int
    ghost var readings: seq<int>
    ghost var slept: seq<nat>

    constructor (grain: nat, start: int)
      ensures this.grain == grain && now == start && readings == [] && slept == []
    {
      this.grain := grain;
      now := start;
      readings, slept := [], [];
    }

    method Read() returns (t: int)
      modifies this`now, this`readings
      ensures now >= old(now) + grain && t == now && readings == old(readings) + [t]
    {
      var passed: nat :| passed >= grain;
      now := now + passed;
      t := now;
      readings := readings + [t];
    }

    method Sleep(ns: nat)
      modifies this`now, this`slept
      ensures now >= old(now) + ns && slept == old(slept) + [ns]
    {
      var passed: nat :| passed >= ns;
      now := now + passed;
      slept := slept + [ns];
    }
  }

  method StartTimeout(clock: Clock, seconds: nat) returns (deadline: int)
    modifies clock`now, clock`readings
    ensures clock.now >= old(clock.now) && deadline == clock.now + seconds * NS_PER_S
    ensures clock.readings == old(clock.readings) + [clock.now]
  {
    var t := clock.Read();
    deadline := t + seconds * NS_PER_S;
  }

  method TimeoutComplete(clock: Clock, deadline: int) returns (complete: bool)
    modifies clock`now, clock`readings
    ensures clock.now >= old(clock.now) + clock.grain && complete == (clock.now >= deadline)
    ensures clock.readings == old(clock.readings) + [clock.now]
  {
    var t := clock.Read();
    complete := t >= deadline;
  }

  /** How politely a poll is followed up: 0 and 1 only burn time, 2 lets other threads run, 3 sleeps. */
  function SpinTier(spin: nat): (tier: nat)
    ensures tier <= 3
    ensures tier >= 1 <==> spin >= SPIN_HARD_LIMIT
    ensures tier >= 2 <==> spin >= SPIN_YIELD_LIMIT
    ensures tier == 3 <==> spin >= SPIN_SOFT_LIMIT
  {
    if spin < SPIN_HARD_LIMIT then 0
    else if spin < SPIN_YIELD_LIMIT then 1
    else if spin < SPIN_SOFT_LIMIT then 2
    else 3
  }

  /**
   One wait between polls. It reports expiry only when the clock has been seen at or past the deadline, which the
   two spinning tiers never look at; when the sleeping tier does not report expiry, it has slept in full and the
   deadline is still ahead.
   */
  method TimeoutApply(clock: Clock, deadline: int, tier: nat) returns (expired: bool)
    requires tier <= 3
    modifies clock
    ensures clock.now >= old(clock.now)
    ensures expired ==> tier >= 2 && clock.now >= deadline
    ensures tier >= 2 && old(clock.now) >= deadline ==> expired
    ensures tier >= 2 && !expired ==> clock.now < deadline
    ensures tier >= 2 ==> clock.now >= old(clock.now) + clock.grain
    ensures tier == 3 && !expired ==> clock.now >= old(clock.now) + SLEEP_NS
    ensures !expired ==> clock.slept == old(clock.slept) + if tier == 3 then [SLEEP_NS] else []
    ensures clock.slept == old(clock.slept) || (tier == 3 && clock.slept == old(clock.slept) + [SLEEP_NS])
    ensures tier < 2 ==> clock.now == old(clock.now) && clock.readings == old(clock.readings)
  {
    if tier == 2 {
      var complete := TimeoutComplete(clock, deadline);
      return complete;
    } else if tier == 3 {
      var complete := TimeoutComplete(clock, deadline);
      if complete {
        return true;
      }
      clock.Sleep(SLEEP_NS);
      complete := TimeoutComplete(clock, deadline);
      return complete;
    }
    return false;
  }

  /**
   The time budget of a loop whose spin counter is never reset: every wait past the soft limit slept in full, and
   the deadline was still ahead after every wait that looked at the clock.
   */
  ghost predicate Patient(spins: int, started: int, now: int, deadline: int) {
    && started <= now
    && (spins > SPIN_YIELD_LIMIT ==> now < deadline)
    && (spins > SPIN_SOFT_LIMIT ==> (spins - SPIN_SOFT_LIMIT) * SLEEP_NS <= now - started)
  }

  lemma PatientAtFirst(started: int, deadline: int)
    ensures Patient(0, started, started, deadline)
  {
  }

  lemma PatienceIsBounded(spins: int, started: int, now: int, seconds: nat)
    requires Patient(spins, started, now, started + seconds * NS_PER_S)
    ensures spins <= SPIN_SOFT_LIMIT + SleepsIn(seconds)
  {
    if spins > SPIN_SOFT_LIMIT {
      assert (spins - SPIN_SOFT_LIMIT) * SLEEP_NS < SleepsIn(seconds) * SLEEP_NS;
    }
  }

  /** One wait of such a loop. */
  method PatientWait(clock: Clock, deadline: int, spin: nat, ghost started: int) returns (expired: bool)
    requires Patient(spin, started, clock.now, deadline)
    modifies clock
    ensures clock.now >= old(clock.now)
    ensures expired ==> clock.now >= deadline && spin >= SPIN_YIELD_LIMIT
    ensures !expired ==> Patient(spin + 1, started, clock.now, deadline)
    ensures !expired && spin >= SPIN_SOFT_LIMIT ==> old(clock.now) < clock.now < deadline
    ensures !expired ==> Napped(old(clock.slept), clock.slept, if spin >= SPIN_SOFT_LIMIT then 1 else 0)
    ensures Napped(old(clock.slept), clock.slept, 0) ||
            (spin >= SPIN_SOFT_LIMIT && Napped(old(clock.slept), clock.slept, 1))
  {
    expired := TimeoutApply(clock, deadline, SpinTier(spin));
  }

  /** The clock has slept in full `n` times. */
  ghost predicate Napped(before: seq<nat>, after: seq<nat>, n: int) {
    before <= after && |after| - |before| == n && forall i | |before| <= i < |after| :: after[i] == SLEEP_NS
  }

  lemma NappedMore(a: seq<nat>, b: seq<nat>, c: seq<nat>, m: int, n: int)
    requires Napped(a, b, m) && Napped(b, c, n)
    ensures Napped(a, c, m + n)
  {
    forall i | |a| <= i < |c|
      ensures c[i] == SLEEP_NS
    {
      assert i < |b| ==> c[i] == b[i];
    }
  }

  /** The sleeps of a loop that has waited `spins` times without resetting its counter. */
  ghost predicate Rested(before: seq<nat>, after: seq<nat>, spins: nat) {
    Napped(before, after, if spins > SPIN_SOFT_LIMIT then spins - SPIN_SOFT_LIMIT else 0)
  }

  /** One wait of such a loop, with its sleeps. */
  method RestedWait(clock: Clock, deadline: int, spin: nat, ghost started: int, ghost slept0: seq<nat>)
      returns (expired: bool)
    requires Patient(spin, started, clock.now, deadline) && Rested(slept0, clock.slept, spin)
    modifies clock
    ensures clock.now >= old(clock.now)
    ensures expired ==> clock.now >= deadline && spin >= SPIN_YIELD_LIMIT
    ensures !expired ==> Patient(spin + 1, started, clock.now, deadline) && Rested(slept0, clock.slept, spin + 1)
    ensures !expired && spin >= SPIN_SOFT_LIMIT ==> old(clock.now) < clock.now < deadline
    ensures RestsLate(slept0, clock.slept, spin + 1) && spin <= SPIN_SOFT_LIMIT + |clock.slept| - |slept0|
  {
    hide Patient;
    ghost var slept := clock.slept;
    expired := PatientWait(clock, deadline, spin, started);
    RestedMore(slept0, slept, clock.slept, spin);
  }

  lemma RestedMore(a: seq<nat>, b: seq<nat>, c: seq<nat>, spin: nat)
    requires Rested(a, b, spin)
    requires Napped(b, c, 0) || (spin >= SPIN_SOFT_LIMIT && Napped(b, c, 1))
    ensures Napped(b, c, if spin >= SPIN_SOFT_LIMIT then 1 else 0) ==> Rested(a, c, spin + 1)
    ensures RestsLate(a, c, spin + 1) && spin <= SPIN_SOFT_LIMIT + |c| - |a|
  {
    var n := if spin > SPIN_SOFT_LIMIT then spin - SPIN_SOFT_LIMIT else 0;
    if Napped(b, c, 0) {
      NappedMore(a, b, c, n, 0);
    } else {
      NappedMore(a, b, c, n, 1);
    }
  }

  lemma NotRested(slept: seq<nat>)
    ensures Rested(slept, slept, 0)
  {
  }

  lemma RestedRestsLate(before: seq<nat>, after: seq<nat>, spins: nat)
    requires Rested(before, after, spins)
    ensures RestsLate(before, after, spins) && spins <= SPIN_SOFT_LIMIT + |after| - |before|
  {
  }

  lemma RestsLater(before: seq<nat>, after: seq<nat>, m: int, n: int)
    requires RestsLate(before, after, m) && m <= n
    ensures RestsLate(before, after, n)
  {
  }

  /** All sleeps are full ones, and the first came only after 512 polls in vain of `polls` in all. */
  ghost predicate RestsLate(before: seq<nat>, after: seq<nat>, polls: int) {
    var n := |after| - |before|;
    Napped(before, after, n) && (n > 0 ==> n + SPIN_SOFT_LIMIT <= polls)
  }

  /** What is left of the budget: polls to the sleeping tier, then time to the deadline. */
  ghost function SpinsLeft(spins: nat): nat {
    if spins < SPIN_SOFT_LIMIT then SPIN_SOFT_LIMIT - spins else 0
  }
}
