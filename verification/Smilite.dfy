/**
 The alternative await loops of src/smilite.h, which meet the FIFO contracts of src/smi.c by another road: the
 write loop pushes before it waits for room, and no loop ever sleeps. They look at the clock only when `spin` has
 passed 1024, so their termination rests on the clock moving between two readings (`grain`).
 */
module Smilite {
  import opened Words
  import opened Device
  import opened Timeout
  import opened ReadAwait
  import opened WriteAwait

  const SPIN_LIMIT: nat := 1024

  ghost function TimeLeft(now: int, deadline: int): nat { if now < deadline then deadline - now else 0 }

  // ----- The read loop -----

  /**
   The looks at the clock in a read of `iterations`: the first sets the deadline, and one more is taken in every
   iteration after the first 1025. The read is `late` exactly when the last of these looks is past the deadline.
   */
  ghost predicate LateIff(before: seq<int>, readings: seq<int>, iterations: int, late: bool) {
    before <= readings &&
    var looks := readings[|before|..];
    && |looks| == 1 + Max(0, iterations - SPIN_LIMIT - 1)
    && (late <==> |looks| > 1 && looks[|looks| - 1] >= looks[0] + PROG_READ_TIMEOUT_S * NS_PER_S)
  }

  /** A read still in time after `iterations`, `checks` of which have looked at the clock. */
  ghost predicate InTime(before: seq<int>, clock: Clock, started: int, iterations: nat, checks: nat)
    reads clock
  {
    && before + [started] <= clock.readings && |clock.readings| == |before| + 1 + checks
    && clock.readings[|clock.readings| - 1] == clock.now
    && checks == Max(0, iterations - SPIN_LIMIT - 1) && started + checks * clock.grain <= clock.now
    && (checks > 0 ==> clock.now < started + PROG_READ_TIMEOUT_S * NS_PER_S)
  }

  lemma StartsInTime(before: seq<int>, clock: Clock, started: int)
    requires clock.readings == before + [started] && clock.now == started
    ensures InTime(before, clock, started, 0, 0)
  {
  }

  lemma StaysInTime(before: seq<int>, clock: Clock, started: int, iterations: nat, checks: nat)
    requires InTime(before, clock, started, iterations, checks) && iterations <= SPIN_LIMIT
    ensures InTime(before, clock, started, iterations + 1, checks)
  {
  }

  lemma ChecksAreFew(checks: nat, grain: nat, total: nat)
    requires grain > 0
    ensures checks * grain <= total ==> checks <= total / grain
  {
    if checks > total / grain {
      assert checks * grain >= (total / grain + 1) * grain;
    }
  }

  lemma InTimeIsNotLate(before: seq<int>, clock: Clock, started: int, iterations: nat, checks: nat)
    requires InTime(before, clock, started, iterations, checks) && clock.grain > 0
    ensures LateIff(before, clock.readings, iterations, false)
    ensures iterations <= SPIN_LIMIT + 1 + PROG_READ_TIMEOUT_S * NS_PER_S / clock.grain
  {
    ChecksAreFew(checks, clock.grain, PROG_READ_TIMEOUT_S * NS_PER_S);
    assert clock.readings[|before|] == (before + [started])[|before|];
  }

  /** One look at the clock, in the iteration after `iterations`. */
  method LookAtClock(clock: Clock, deadline: int, ghost before: seq<int>, ghost started: int,
                     ghost iterations: nat, ghost checks: nat)
      returns (late: bool)
    requires InTime(before, clock, started, iterations, checks) && iterations > SPIN_LIMIT
    requires deadline == started + PROG_READ_TIMEOUT_S * NS_PER_S
    modifies clock`now, clock`readings
    ensures clock.now >= old(clock.now) + clock.grain && late == (clock.now >= deadline)
    ensures late ==> LateIff(before, clock.readings, iterations + 1, true)
    ensures !late ==> InTime(before, clock, started, iterations + 1, checks + 1)
  {
    late := TimeoutComplete(clock, deadline);
    assert clock.readings[|before|] == (before + [started])[|before|];
  }

  /** After `n` polls, every word that was seen has been taken. */
  ghost predicate Taken(before: seq<State>, polls: seq<State>, n: nat, count: nat) {
    before <= polls && |polls| == |before| + n && Count(Data, polls) == Count(Data, before) + count
  }

  lemma NoneTaken(polls: seq<State>)
    ensures Taken(polls, polls, 0, 0)
  {
  }

  lemma OneMoreTaken(before: seq<State>, a: seq<State>, b: seq<State>, n: nat, count: nat, ready: bool)
    requires Taken(before, a, n, count) && a <= b && |b| == |a| + 1
    requires Count(Data, b) == Count(Data, a) + if ready then 1 else 0
    ensures Taken(before, b, n + 1, if ready then count + 1 else count)
  {
  }

  lemma AllTaken(before: seq<State>, polls: seq<State>, n: nat, count: nat)
    requires Taken(before, polls, n, count)
    ensures before <= polls && |polls| == |before| + n && Count(Data, polls) == Count(Data, before) + count
  {
  }

  /**
   The read loop: the clock is looked at in every iteration past the limit, also in one that took the last word. So a
   timeout is reported exactly when the last look was late, whether or not a word is missing.
   */
  method LiteReadAwait(dev: Smi, clock: Clock, ret: array?<Word>, len: int) returns (r: int, ghost got: nat)
    requires Ok(dev.s) && (ret != null ==> len <= ret.Length) && clock.grain > 0
    modifies dev, clock`now, clock`readings, ret
    ensures Ok(dev.s) && old(dev.polls) <= dev.polls
    ensures ret == null ==> r == -EINVAL && dev.s == old(dev.s)
    ensures ret != null ==>
              got <= Max(len, 0) <= ret.Length && forall i | got <= i < ret.Length :: ret[i] == old(ret[i])
    ensures ret != null && r >= 0 ==> r == got == Max(len, 0) && Conserved(old(dev.s), dev.s, ret[..got])
    ensures ret != null && r < 0 ==>
              r == -ETIMEDOUT && Abandoned(old(dev.s), dev.s, ret[..got]) &&
              clock.now >= old(clock.now) + PROG_READ_TIMEOUT_S * NS_PER_S
    // On a timeout every word that was seen has been taken; a normal return may see one more at its last look.
    ensures ret != null ==>
              var seen := Count(Data, dev.polls) - Count(Data, old(dev.polls));
              if r < 0 then seen == got else got <= seen <= got + 1
    ensures ret != null ==>
              var iterations := |dev.polls| - |old(dev.polls)| - if r < 0 then 0 else 1;
              LateIff(old(clock.readings), clock.readings, iterations, r < 0)
    // However the device behaves, the loop ends after this many polls.
    ensures |dev.polls| - |old(dev.polls)| <= SPIN_LIMIT + 2 + PROG_READ_TIMEOUT_S * NS_PER_S / clock.grain
  {
    hide Conserved, Abandoned, InTime, LateIff, Count, Taken;
    got := 0;
    if ret == null {
      return -EINVAL, 0;
    }
    var count: nat, spin: nat := 0, 0;
    ghost var before, polls0, checks := clock.readings, dev.polls, 0;
    var deadline := StartTimeout(clock, PROG_READ_TIMEOUT_S);
    ghost var s0, started := dev.s, clock.now;
    StartsInTime(before, clock, started);
    NoneTaken(polls0);
    TakesNothing(s0);
    assert ret[..count] == [];

    while count < len
      invariant 0 <= count <= Max(len, 0) && got == count && Ok(dev.s)
      invariant Conserved(s0, dev.s, ret[..count])
      invariant forall i | count <= i < ret.Length :: ret[i] == old(ret[i])
      invariant Taken(polls0, dev.polls, spin, count)
      invariant InTime(before, clock, started, spin, checks)
      decreases TimeLeft(clock.now, deadline), if spin <= SPIN_LIMIT then SPIN_LIMIT + 1 - spin else 0
    {
      label Head:
      InTimeIsNotLate(before, clock, started, spin, checks);
      ghost var polls := dev.polls;
      var ready, w := PollWord(dev, s0, ret[..count]);
      OneMoreTaken(polls0, polls, dev.polls, spin, count, ready);
      if ready {
        ret[count] := w;
        count := count + 1;
        got := count;
        assert ret[..count] == old@Head(ret[..count - 1]) + [w];
      }
      if spin > SPIN_LIMIT {
        var late := LookAtClock(clock, deadline, before, started, spin, checks);
        if late {
          AllTaken(polls0, dev.polls, spin + 1, count);
          ReadAwait.ClearFifos(dev, s0, ret[..count]);
          return -ETIMEDOUT, count;
        }
        checks := checks + 1;
      } else {
        StaysInTime(before, clock, started, spin, checks);
      }
      spin := spin + 1;
    }
    InTimeIsNotLate(before, clock, started, spin, checks);
    AllTaken(polls0, dev.polls, spin, count);
    PollLeftover(dev, s0, ret[..count]);
    r := count;
  }

  /** The source's `int` counter does not overflow on a clock whose looks are at least 24 ns apart. */
  lemma SpinFitsInt(spin: nat, grain: nat)
    requires grain >= 24 && spin <= SPIN_LIMIT + 2 + PROG_READ_TIMEOUT_S * NS_PER_S / grain
    ensures spin < 0x8000_0000
  {
    FewerOfMore(24, grain, PROG_READ_TIMEOUT_S * NS_PER_S);
  }

  lemma FewerOfMore(m: nat, grain: nat, total: nat)
    requires 0 < m <= grain
    ensures m * (total / grain) <= total
  {
    var q := total / grain;
    QuotientFits(total, grain);
    assert q * (grain - m) >= 0;
    assert q * grain == q * m + q * (grain - m);
  }

  lemma QuotientFits(total: nat, grain: nat)
    requires grain > 0
    ensures (total / grain) * grain <= total
  {
    assert total == (total / grain) * grain + total % grain;
  }

  // ----- The write loop -----

  const WRITE_NS: nat := PROG_WRITE_TIMEOUT_S * NS_PER_S

  /** `total` increments of a spin counter that starts again after every 1025, when the clock is looked at. */
  ghost predicate Spun(total: nat, spin: nat, looks: int, started: int, now: int, grain: nat) {
    && spin <= SPIN_LIMIT + 1 && 0 <= looks && total == (SPIN_LIMIT + 1) * looks + spin
    && started <= now && looks * grain <= now - started && (looks > 0 ==> now < started + WRITE_NS)
  }

  /** So many looks have been taken for `total` increments, a last one that was late included. */
  ghost predicate LooksFor(total: nat, looks: int) {
    (SPIN_LIMIT + 1) * looks <= total <= (SPIN_LIMIT + 1) * (looks + 1)
  }

  /** The most increments there can be. */
  function MostSpins(grain: nat): nat
    requires grain > 0
  {
    (SPIN_LIMIT + 1) * (WRITE_NS / grain + 1)
  }

  lemma NotSpunYet(started: int, grain: nat)
    ensures Spun(0, 0, 0, started, started, grain)
  {
  }

  lemma SpinOnce(total: nat, spin: nat, looks: int, started: int, now: int, grain: nat)
    requires Spun(total, spin, looks, started, now, grain) && spin <= SPIN_LIMIT
    ensures Spun(total + 1, spin + 1, looks, started, now, grain)
  {
  }

  lemma SpinAgain(total: nat, looks: int, started: int, before: int, now: int, grain: nat)
    requires Spun(total, SPIN_LIMIT + 1, looks, started, before, grain)
    ensures now >= before + grain && now < started + WRITE_NS ==> Spun(total, 0, looks + 1, started, now, grain)
    ensures LooksFor(total, looks + 1) && total > SPIN_LIMIT
  {
    assert (looks + 1) * grain == looks * grain + grain;
  }

  lemma SpinsAreFew(total: nat, spin: nat, looks: int, started: int, now: int, grain: nat)
    requires grain > 0 && Spun(total, spin, looks, started, now, grain)
    ensures total <= MostSpins(grain) && LooksFor(total, looks)
  {
    ChecksAreFew(looks, grain, WRITE_NS);
  }

  /** Past the spin limit the clock is looked at, and the spin counter starts again if time is left. */
  method CheckClock(clock: Clock, deadline: int, start: nat, ghost total: nat, ghost base: nat, ghost started: int)
      returns (expired: bool, spin: nat)
    requires clock.grain > 0 && deadline == started + WRITE_NS
    requires Spun(total, start, |clock.readings| - base, started, clock.now, clock.grain)
    modifies clock`now, clock`readings
    ensures clock.now >= old(clock.now)
    ensures expired ==> clock.now >= deadline && SPIN_LIMIT < total <= MostSpins(clock.grain)
    ensures expired ==> LooksFor(total, |clock.readings| - base)
    ensures !expired ==> spin <= SPIN_LIMIT
    ensures !expired ==> Spun(total, spin, |clock.readings| - base, started, clock.now, clock.grain)
    ensures start <= SPIN_LIMIT ==> !expired && spin == start && clock.now == old(clock.now)
    ensures start > SPIN_LIMIT && !expired ==> spin == 0
    ensures start > SPIN_LIMIT && !expired ==> old(clock.now) < clock.now < deadline
  {
    SpinsAreFew(total, start, |clock.readings| - base, started, clock.now, clock.grain);
    expired, spin := false, start;
    if spin > SPIN_LIMIT {
      ghost var before := clock.now;
      expired := TimeoutComplete(clock, deadline);
      spin := 0;
      SpinAgain(total, |clock.readings| - 1 - base, started, before, clock.now, clock.grain);
    }
  }

  method LiteAwaitRoom(dev: Smi, clock: Clock, deadline: int, start: nat, ghost before: nat,
                       ghost base: nat, ghost started: int, ghost s: State, ghost pushed: seq<Word>)
      returns (expired: bool, spin: nat, ghost total: nat)
    requires Ok(dev.s) && Sending(s, dev.s, pushed) && clock.grain > 0
    requires deadline == started + WRITE_NS
    requires Spun(before, start, |clock.readings| - base, started, clock.now, clock.grain)
    modifies dev, clock`now, clock`readings
    ensures Ok(dev.s) && Sending(s, dev.s, pushed)
    ensures total >= before && old(dev.polls) <= dev.polls && |dev.polls| == |old(dev.polls)| + 1 + total - before
    ensures Count(NoRoom, dev.polls) >= Count(NoRoom, old(dev.polls)) + total - before
    ensures Watched(old(dev.s), old(dev.polls), dev.s, dev.polls, 1)
    ensures clock.now >= old(clock.now)
    ensures expired ==> clock.now >= deadline && SPIN_LIMIT < total <= MostSpins(clock.grain)
    ensures expired ==> LooksFor(total, |clock.readings| - base)
    ensures !expired ==> |dev.s.tx| < FIFO_DEPTH && spin <= SPIN_LIMIT + 1
    ensures !expired ==> Spun(total, spin, |clock.readings| - base, started, clock.now, clock.grain)
    ensures !expired ==> (clock.now == old(clock.now) && spin >= start) || old(clock.now) < clock.now < deadline
  {
    hide Sending, Spun, LooksFor, Count, Watched;
    SpinBound(before, start, |clock.readings| - base, started, clock.now, clock.grain);
    spin, expired, total := start, false, before;
    ghost var t, polls := dev.s, dev.polls;
    var cs := PollCs(dev, s, pushed);
    while !cs.txd
      invariant Ok(dev.s) && Sending(s, dev.s, pushed) && cs == ReadCs(dev.s) && spin <= SPIN_LIMIT + 1
      invariant total >= before && old(dev.polls) <= dev.polls
      invariant |dev.polls| == |old(dev.polls)| + 1 + total - before
      invariant Count(NoRoom, dev.polls) == Count(NoRoom, old(dev.polls)) + total - before + if cs.txd then 0 else 1
      invariant Watched(t, polls, dev.s, dev.polls, if cs.txd then 1 else 0)
      invariant Spun(total, spin, |clock.readings| - base, started, clock.now, clock.grain)
      invariant (clock.now == old(clock.now) && spin >= start) || old(clock.now) < clock.now < deadline
      decreases TimeLeft(clock.now, deadline), SPIN_LIMIT + 1 - spin
    {
      expired, spin := CheckClock(clock, deadline, spin, total, base, started);
      if expired {
        WatchedWaits(t, polls, dev.s, dev.polls, 0);
        return;
      }
      SpinOnce(total, spin, |clock.readings| - base, started, clock.now, clock.grain);
      spin, total := spin + 1, total + 1;
      ghost var u, b := dev.s, dev.polls;
      cs := PollCs(dev, s, pushed);
      WatchedOn(t, polls, u, b, dev.s, dev.polls, 0, if cs.txd then 1 else 0);
    }
  }

  lemma SpinBound(total: nat, spin: nat, looks: int, started: int, now: int, grain: nat)
    requires Spun(total, spin, looks, started, now, grain)
    ensures spin <= SPIN_LIMIT + 1
  {
  }

  /** One iteration: push, wait for room, check the clock, and look at AFERR. */
  method LiteWriteRound(dev: Smi, clock: Clock, deadline: int, start: nat, data: array<Word>, count: nat, len: int,
                        ghost before: nat, ghost base: nat, ghost started: int, ghost s: State)
      returns (expired: bool, failed: bool, spin: nat, next: nat, ghost total: nat)
    requires Ok(dev.s) && count <= Max(len + 1, 0) && len < data.Length && Sending(s, dev.s, data[..count])
    requires |dev.s.tx| < FIFO_DEPTH && clock.grain > 0
    requires deadline == started + WRITE_NS
    requires Spun(before, start, |clock.readings| - base, started, clock.now, clock.grain)
    modifies dev, clock`now, clock`readings
    ensures Ok(dev.s) && next <= Max(len + 1, 0) && Sending(s, dev.s, data[..next])
    ensures next == if count < len + 1 then count + 1 else count
    ensures old(dev.polls) <= dev.polls && before <= total
    ensures |dev.polls| == |old(dev.polls)| + (if expired then 1 else 2) + total - before
    ensures clock.now >= old(clock.now)
    ensures expired ==> clock.now >= deadline && SPIN_LIMIT < total <= MostSpins(clock.grain)
    ensures expired ==> LooksFor(total, |clock.readings| - base)
    ensures Count(NoRoom, dev.polls) >= Count(NoRoom, old(dev.polls)) + total - before
    ensures Watched(old(dev.s), old(dev.polls), dev.s, dev.polls, 2)
    ensures !expired ==> |dev.s.tx| < FIFO_DEPTH && spin <= SPIN_LIMIT && failed == dev.s.aferr
    ensures !expired ==> Spun(total, spin, |clock.readings| - base, started, clock.now, clock.grain)
    ensures !expired ==> (clock.now == old(clock.now) && spin >= start) || old(clock.now) < clock.now < deadline
  {
    hide Sending, Spun, LooksFor, Count, Watched;
    failed := false;
    ghost var t, polls := dev.s, dev.polls;
    next := PushNext(dev, data, count, len, s);
    ghost var u := dev.s;
    expired, spin, total := LiteAwaitRoom(dev, clock, deadline, start, before, base, started, s, data[..next]);
    WatchedOn(t, polls, u, polls, dev.s, dev.polls, 0, 1);
    WatchedWaits(t, polls, dev.s, dev.polls, 1);
    if !expired {
      expired, spin := CheckClock(clock, deadline, spin, total, base, started);
    }
    if !expired {
      ghost var v, b := dev.s, dev.polls;
      var cs := PollCs(dev, s, data[..next]);
      WatchedWaits(v, b, dev.s, dev.polls, if cs.txd then 1 else 0);
      WatchedOn(t, polls, v, b, dev.s, dev.polls, 1, 1);
      failed := cs.aferr;
    }
  }

  /**
   What the history of polls says of a write, as in src/smi.c, but with 1024 for 192, and without any sleep. `looks`
   have been taken at the clock after the one for the deadline, one for every 1025 increments of the spin counter.
   */
  ghost predicate LitePolled(polls0: seq<State>, polls: seq<State>, looks: int, grain: nat,
                             len: int, pushed: nat, ending: Ending)
    requires grain > 0
  {
    polls0 <= polls &&
    var n := |polls| - |polls0|;
    && n <= 3 * (MostSpins(grain) + 1)
    && (SPIN_LIMIT + 1) * looks <= n <= 3 * ((SPIN_LIMIT + 1) * (looks + 1) + 1)
    && Count(DoneAndRoom, polls) - Count(DoneAndRoom, polls0) <= (if ending.Finished? then 3 else 2)
    && (ending.TimedOut? ==>
          && n > SPIN_LIMIT
          && (pushed <= len ==> pushed + Count(NoRoom, polls) - Count(NoRoom, polls0) > SPIN_LIMIT))
  }

  /** The same at the head of the loop, after `total` increments of the spin counter. */
  ghost predicate LiteWriting(s: State, polls0: seq<State>, t: State, polls: seq<State>,
                              len: int, pushed: nat, total: nat)
  {
    && polls0 <= polls && Watched(s, polls0, t, polls, 3)
    && 1 + total <= |polls| - |polls0| <= 1 + 3 * total
    && (pushed <= len ==> total <= pushed + Count(NoRoom, polls) - Count(NoRoom, polls0))
    && (total == 0 ==> pushed == 0) && (s.aferr ==> total == 0)
  }

  lemma LiteFirstPoll(s: State, polls0: seq<State>, t: State, polls: seq<State>, len: int, most: nat)
    requires Watched(s, polls0, t, polls, most) && most <= 1 && |polls| == |polls0| + 1
    requires Count(NoRoom, polls) >= Count(NoRoom, polls0)
    ensures LiteWriting(s, polls0, t, polls, len, 0, 0)
  {
    hide Count;
    WatchedWaits(s, polls0, t, polls, most);
  }

  lemma LiteGoesOn(s: State, polls0: seq<State>, t: State, a: seq<State>, u: State, b: seq<State>,
                   v: State, c: seq<State>, len: int, pushed: nat, next: nat, before: nat, total: nat, most: nat)
    requires LiteWriting(s, polls0, t, a, len, pushed, before) && !t.done && before <= total
    requires Watched(t, a, u, b, 2) && |b| == |a| + 2 + total - before
    requires Watched(u, b, v, c, most) && most <= 1 && |c| == |b| + 1 && Count(NoRoom, b) <= Count(NoRoom, c)
    requires Count(NoRoom, b) >= Count(NoRoom, a) + total - before && !u.aferr
    requires next == if pushed < len + 1 then pushed + 1 else pushed
    ensures LiteWriting(s, polls0, v, c, len, next, total + 1)
  {
    hide Count, Watched;
    WatchedWaits(s, polls0, t, a, 3);
    WatchedOn(s, polls0, t, a, u, b, 0, 2);
    WatchedWaits(s, polls0, u, b, 2);
    WatchedOn(s, polls0, u, b, v, c, 2, most);
    WatchedWaits(s, polls0, v, c, 2 + most);
  }

  lemma LiteStops(s: State, polls0: seq<State>, t: State, a: seq<State>, u: State, b: seq<State>,
                  looks: int, grain: nat,
                  len: int, pushed: nat, next: nat, before: nat, total: nat, ending: Ending)
    requires LiteWriting(s, polls0, t, a, len, pushed, before) && !t.done && before <= total && ending != Finished
    requires Watched(t, a, u, b, 2) && |b| == |a| + (if ending.TimedOut? then 1 else 2) + total - before
    requires next == if pushed < len + 1 then pushed + 1 else pushed
    requires grain > 0 && total <= MostSpins(grain) && LooksFor(total, looks)
    requires ending.TimedOut? ==> total > SPIN_LIMIT
    requires Count(NoRoom, b) >= Count(NoRoom, a) + total - before
    ensures LitePolled(polls0, b, looks, grain, len, next, ending)
    ensures u.aferr == s.aferr && (s.aferr ==> next <= 1)
  {
    hide Count, Watched, MostSpins;
    WatchedWaits(s, polls0, t, a, 3);
    WatchedOn(s, polls0, t, a, u, b, 0, 2);
    WatchedWaits(s, polls0, u, b, 2);
    WatchedCount(s, polls0, u, b, 2);
  }

  lemma LiteEnds(s: State, polls0: seq<State>, t: State, polls: seq<State>, looks: int, grain: nat,
                 len: int, pushed: nat, total: nat)
    requires LiteWriting(s, polls0, t, polls, len, pushed, total) && grain > 0 && total <= MostSpins(grain)
    requires LooksFor(total, looks)
    ensures LitePolled(polls0, polls, looks, grain, len, pushed, Finished)
    ensures s.aferr ==> pushed == 0
  {
    hide Count, Watched, MostSpins;
    WatchedCount(s, polls0, t, polls, 3);
  }

  /** One iteration and the next poll of DONE, with what the histories say. */
  method LiteIterate(dev: Smi, clock: Clock, deadline: int, start: nat, data: array<Word>, count: nat, len: int,
                     ghost before: nat, ghost base: nat, ghost started: int, ghost polls0: seq<State>, ghost s: State)
      returns (expired: bool, failed: bool, done: bool, spin: nat, next: nat, ghost total: nat)
    requires Ok(dev.s) && count <= Max(len + 1, 0) && len < data.Length && Sending(s, dev.s, data[..count])
    requires |dev.s.tx| < FIFO_DEPTH && clock.grain > 0 && !dev.s.done && start <= SPIN_LIMIT + 1
    requires deadline == started + WRITE_NS
    requires Spun(before, start, |clock.readings| - base, started, clock.now, clock.grain)
    requires LiteWriting(s, polls0, dev.s, dev.polls, len, count, before)
    modifies dev, clock`now, clock`readings
    ensures Ok(dev.s) && next <= Max(len + 1, 0) && Sending(s, dev.s, data[..next]) && clock.now >= old(clock.now)
    ensures expired || failed ==>
              && (s.aferr ==> next <= 1)
              && LitePolled(polls0, dev.polls, |clock.readings| - base, clock.grain, len, next,
                            if expired then TimedOut else FifoError)
    ensures expired ==> clock.now >= deadline
    ensures !expired && failed ==> s.aferr
    ensures !expired && !failed ==>
              && |dev.s.tx| < FIFO_DEPTH && spin <= SPIN_LIMIT + 1 && done == dev.s.done
              && Spun(total, spin, |clock.readings| - base, started, clock.now, clock.grain)
              && LiteWriting(s, polls0, dev.s, dev.polls, len, next, total)
              && ((clock.now == old(clock.now) && spin > start) || old(clock.now) < clock.now < deadline)
  {
    hide Sending, Spun, LooksFor, MostSpins, Count, Watched, LiteWriting, LitePolled;
    ghost var t, a := dev.s, dev.polls;
    done := false;
    expired, failed, spin, next, total :=
      LiteWriteRound(dev, clock, deadline, start, data, count, len, before, base, started, s);
    ghost var u, b, looks := dev.s, dev.polls, |clock.readings| - base;
    if expired {
      LiteStops(s, polls0, t, a, u, b, looks, clock.grain, len, count, next, before, total, TimedOut);
      return;
    }
    SpinsAreFew(total, spin, looks, started, clock.now, clock.grain);
    if failed {
      LiteStops(s, polls0, t, a, u, b, looks, clock.grain, len, count, next, before, total, FifoError);
      return;
    }
    SpinOnce(total, spin, looks, started, clock.now, clock.grain);
    var cs := PollCs(dev, s, data[..next]);
    LiteGoesOn(s, polls0, t, a, u, b, dev.s, dev.polls, len, count, next, before, total, if cs.txd then 1 else 0);
    done, spin, total := cs.done, spin + 1, total + 1;
  }

  /**
   The write loop: from a FIFO that is not full it never overflows, because room at the head of every iteration is
   what the iteration before waited for. The delivery contract is the one of src/smi.c.
   */
  method LiteWriteAwait(dev: Smi, clock: Clock, data: array?<Word>, len: int)
      returns (r: int, ghost ending: Ending, ghost pushed: nat)
    requires Ok(dev.s) && (data != null ==> len < data.Length) && clock.grain > 0
    requires |dev.s.tx| < FIFO_DEPTH
    modifies dev, clock`now, clock`readings
    ensures Ok(dev.s)
    ensures ending.NoData? <==> data == null
    ensures ending.NoData? ==> r == -1 && dev.s == old(dev.s)
    ensures data != null ==> pushed <= Max(len + 1, 0) <= data.Length
    ensures ending.Finished? ==> r == pushed && dev.s.done && Sending(old(dev.s), dev.s, data[..pushed])
    ensures ending.TimedOut? ==>
              r == -ETIMEDOUT && CutShort(old(dev.s), dev.s, data[..pushed]) && !dev.s.done &&
              clock.now >= old(clock.now) + PROG_WRITE_TIMEOUT_S * NS_PER_S
    ensures ending.FifoError? ==>
              r == pushed && CutShort(old(dev.s), dev.s, data[..pushed]) && old(dev.s.aferr) && !dev.s.aferr
    // An AFERR flag left over is noticed in the first iteration.
    ensures data != null && old(dev.s.aferr) ==> pushed <= 1 && (ending.Finished? ==> pushed == 0)
    // However the device behaves, the polls are these.
    ensures data != null ==>
              LitePolled(old(dev.polls), dev.polls, |clock.readings| - |old(clock.readings)| - 1, clock.grain,
                         len, pushed, ending)
  {
    hide Sending, CutShort, Spun, LooksFor, MostSpins, Count, Watched, LiteWriting, LitePolled;
    pushed := 0;
    if data == null {
      return -1, NoData, 0;
    }
    var count: nat, spin: nat := 0, 0;
    var deadline := StartTimeout(clock, PROG_WRITE_TIMEOUT_S);
    ghost var s0, polls0, base, started, total := dev.s, dev.polls, |clock.readings|, clock.now, 0;
    NotSpunYet(started, clock.grain);
    ending := Finished;
    SendsNothing(s0);
    assert data[..count] == [];

    var cs := PollCs(dev, s0, data[..count]);
    LiteFirstPoll(s0, polls0, dev.s, dev.polls, len, if cs.txd then 1 else 0);
    var done := cs.done;
    while !done
      invariant Ok(dev.s) && count <= Max(len + 1, 0) && pushed == count && ending == Finished
      invariant Sending(s0, dev.s, data[..count]) && done == dev.s.done
      invariant |dev.s.tx| < FIFO_DEPTH && spin <= SPIN_LIMIT + 1 && clock.now >= started
      invariant Spun(total, spin, |clock.readings| - base, started, clock.now, clock.grain)
      invariant LiteWriting(s0, polls0, dev.s, dev.polls, len, count, total)
      decreases TimeLeft(clock.now, deadline), SPIN_LIMIT + 1 - spin
    {
      var expired, failed;
      expired, failed, done, spin, count, total :=
        LiteIterate(dev, clock, deadline, spin, data, count, len, total, base, started, polls0, s0);
      pushed := count;
      if expired {
        GiveUp(dev, s0, data[..count]);
        return -ETIMEDOUT, TimedOut, count;
      }
      if failed {
        ReportFifoError(dev, s0, data[..count]);
        return count, FifoError, count;
      }
    }
    SpinsAreFew(total, spin, |clock.readings| - base, started, clock.now, clock.grain);
    LiteEnds(s0, polls0, dev.s, dev.polls, |clock.readings| - base, clock.grain, len, count, total);
    r := count;
  }
}
