/** `smi_dma_await` of src/smi.c: sleeps of doubling length until the DMA channel reports its end or time is up. */
module Dma {
  import opened Words
  import opened Timeout

  const PROG_READ_TIMEOUT_S: nat := 50
  const FIRST_DELAY: nat := 1000
  const DELAY_LIMIT: nat := 100000
  const LONGEST: nat := 128000

  /**
   A DMA channel that sets END at some time of its own, if ever. `looks` counts the polls of END, `seen` those that
   found it set.
   */
  class Channel {
    var end: bool
    var abort: bool
    ghost var looks: nat
    ghost var seen: nat

    constructor ()
      ensures !end && !abort && looks == 0 && seen == 0
    {
      end, abort, looks, seen := false, false, 0, 0;
    }

    /** A poll of END, which may have been set in the meantime and then stays set. */
    method PollEnd()
      modifies this`end, this`looks, this`seen
      ensures (old(end) ==> end) && looks == old(looks) + 1 && seen == old(seen) + if end then 1 else 0
    {
      var finished: bool := *;
      end := end || finished;
      looks := looks + 1;
      seen := seen + if end then 1 else 0;
    }
  }

  function Pow2(k: nat): nat { if k == 0 then 1 else 2 * Pow2(k - 1) }

  /** The k-th sleep: 1000 ns doubled up to seven times. */
  function Delay(k: nat): nat { FIRST_DELAY * Pow2(Min(k, 7)) }

  lemma DelayDoubles(k: nat)
    ensures Delay(0) == FIRST_DELAY
    ensures Delay(k + 1) == if Delay(k) < DELAY_LIMIT then 2 * Delay(k) else Delay(k)
    ensures k >= 7 ==> Delay(k) == LONGEST
  {
    assert Pow2(7) == 128 && Pow2(6) == 64 && Pow2(5) == 32 && Pow2(4) == 16 && Pow2(3) == 8;
  }

  /** Time spent in the first `k` sleeps, if each takes exactly what it asks for. */
  function Slept(k: nat): nat { if k == 0 then 0 else Slept(k - 1) + Delay(k - 1) }

  lemma {:induction false} SleptGrows(k: nat)
    ensures k >= 7 ==> Slept(k) == 127000 + LONGEST * (k - 7)
  {
    if k > 7 {
      SleptGrows(k - 1);
      DelayDoubles(k - 1);
    } else if k == 7 {
      assert Pow2(3) == 8 && Pow2(6) == 64;
      assert Slept(3) == 7000 && Slept(6) == 63000;
    }
  }

  /** Sleeps are taken only while the deadline is ahead, so there are few. */
  lemma SleepsAreFew(k: nat, seconds: nat)
    requires k > 0 ==> Slept(k - 1) < seconds * NS_PER_S
    ensures k <= 8 + seconds * NS_PER_S / LONGEST
  {
    if k > 8 {
      SleptGrows(k - 1);
      var n := k - 8;
      assert LONGEST * n < seconds * NS_PER_S;
      assert n <= seconds * NS_PER_S / LONGEST;
    }
  }

  /** The first `n` sleeps. */
  function Delays(n: nat): seq<nat> {
    seq(n, k requires k >= 0 => Delay(k))
  }

  lemma DelaysGrow(n: nat)
    ensures Delays(n + 1) == Delays(n) + [Delay(n)]
  {
  }

  /**
   Returns 1 when END has been seen, and otherwise aborts the channel at or after the deadline. Between two polls of
   END lies exactly one sleep; the sleeps follow the delay schedule and are few.
   */
  method SmiDmaAwait(ch: Channel, clock: Clock) returns (r: int)
    modifies ch, clock
    ensures r == 1 || r == -ETIMEDOUT
    ensures r == 1 ==> ch.end && ch.abort == old(ch.abort)
    ensures r == -ETIMEDOUT ==> ch.abort && clock.now >= old(clock.now) + PROG_READ_TIMEOUT_S * NS_PER_S
    ensures var n := |clock.slept| - |old(clock.slept)|;
            && 0 <= n <= 8 + PROG_READ_TIMEOUT_S * NS_PER_S / LONGEST
            && clock.slept == old(clock.slept) + Delays(n)
            && ch.looks == old(ch.looks) + n + 1
            && |clock.readings| == |old(clock.readings)| + 1 + n + if r == 1 then 0 else 1
    // The first sight of END ends the wait.
    ensures ch.seen == old(ch.seen) + if r == 1 then 1 else 0
  {
    hide Pow2, Delay, Delays;
    var delay := FIRST_DELAY;
    var deadline := StartTimeout(clock, PROG_READ_TIMEOUT_S);
    ghost var started, n := clock.now, 0;
    DelayDoubles(0);
    NoDelays();
    ch.PollEnd();
    while !ch.end
      invariant delay == Delay(n) > 0 && ch.abort == old(ch.abort)
      invariant clock.slept == old(clock.slept) + Delays(n) && |Delays(n)| == n
      invariant ch.looks == old(ch.looks) + n + 1 && ch.seen == old(ch.seen) + if ch.end then 1 else 0
      invariant |clock.readings| == |old(clock.readings)| + 1 + n
      invariant clock.now - started >= Slept(n)
      invariant n > 0 ==> Slept(n - 1) < PROG_READ_TIMEOUT_S * NS_PER_S
      decreases deadline - clock.now
    {
      var complete := TimeoutComplete(clock, deadline);
      if complete {
        ch.abort := true;
        SleepsAreFew(n, PROG_READ_TIMEOUT_S);
        return -ETIMEDOUT;
      }
      DelayDoubles(n);
      DelaysGrow(n);
      clock.Sleep(delay);
      n := n + 1;
      if delay < DELAY_LIMIT {
        delay := delay * 2;
      }
      ch.PollEnd();
    }
    SleepsAreFew(n, PROG_READ_TIMEOUT_S);
    r := 1;
  }

  lemma NoDelays()
    ensures Delays(0) == []
  {
  }
}
