/** Programmed reads: `smi_read_await` of src/smi.c, against an engine that never waits for the driver. */
module ReadAwait {
  import opened Words
  import opened Device
  import opened Timeout

  const PROG_READ_TIMEOUT_S: nat := 50

  /** Every word a reader can have seen since `s`: the RX FIFO as it was then, and what was captured after. */
  function Stream(s: State, t: State): seq<Word>
    requires s.captured <= t.captured
  {
    s.rx + t.captured[|s.captured|..]
  }

  /** The reader's side of a transfer: nothing but the engine and the reader's own pops has happened since `s`. */
  ghost predicate Reading(s: State, t: State) {
    && s.captured <= t.captured
    && SameSetup(s, t)
    && (t.aferr ==> s.aferr)
  }

  /** Conservation: the words taken so far followed by the FIFO are the stream, in order. */
  ghost predicate Conserved(s: State, t: State, taken: seq<Word>) {
    Reading(s, t) && taken + t.rx == Stream(s, t)
  }

  lemma TakesNothing(s: State)
    ensures Conserved(s, s, [])
  {
  }

  lemma EngineConserves(s: State, t: State, u: State, taken: seq<Word>)
    requires Ok(t) && Conserved(s, t, taken) && Runs(t, u)
    ensures Conserved(s, u, taken)
  {
    if t.active && !t.write {
      assert u.captured[|s.captured|..] == t.captured[|s.captured|..] + u.captured[|t.captured|..];
      assert taken + u.rx == taken + t.rx + u.captured[|t.captured|..];
    }
  }

  lemma PopConserves(s: State, t: State, taken: seq<Word>)
    requires Conserved(s, t, taken) && t.rx != []
    ensures Conserved(s, Popped(t), taken + [t.rx[0]])
  {
    assert taken + t.rx == taken + [t.rx[0]] + t.rx[1..];
  }

  /** What is left after clearing the FIFOs: the words taken are still the first words of the stream. */
  ghost predicate Abandoned(s: State, t: State, taken: seq<Word>) {
    Reading(s, t) && taken <= Stream(s, t) && t.rx == []
  }

  method ClearFifos(dev: Smi, ghost s: State, ghost taken: seq<Word>)
    requires Ok(s) && Ok(dev.s) && Conserved(s, dev.s, taken)
    modifies dev`s
    ensures Ok(dev.s) && Abandoned(s, dev.s, taken)
  {
    ghost var t := dev.s;
    ghost var a, b := dev.SetCs(Clear, true);
    RunsStaysOk(t, a);
    EngineConserves(s, t, a, taken);
    EngineConserves(s, a, b, taken);
  }

  /** One poll: if RXD reads as set, the oldest word is taken from D. The engine runs before each access. */
  method PollWord(dev: Smi, ghost s: State, ghost taken: seq<Word>) returns (ready: bool, w: Word)
    requires Ok(dev.s) && Conserved(s, dev.s, taken)
    modifies dev
    ensures Ok(dev.s)
    ensures ready ==> Conserved(s, dev.s, taken + [w])
    ensures !ready ==> Conserved(s, dev.s, taken)
    ensures |dev.polls| == |old(dev.polls)| + 1 && old(dev.polls) <= dev.polls
    ensures Count(Data, dev.polls) == Count(Data, old(dev.polls)) + if ready then 1 else 0
    ensures !ready ==> Dry(dev.polls[|old(dev.polls)|], s.write)
  {
    ghost var t, polls := dev.s, dev.polls;
    var cs := dev.PollCs();
    CountGrows(Data, polls, dev.s);
    EngineConserves(s, t, dev.s, taken);
    ready := cs.rxd;
    w := 0;
    if ready {
      t := dev.s;
      dev.Advance();
      EngineConserves(s, t, dev.s, taken);
      PopConserves(s, dev.s, taken);
      w := dev.ReadD();
    }
  }

  /** The last look at RXD, which only decides whether leftover data is reported. */
  method PollLeftover(dev: Smi, ghost s: State, ghost taken: seq<Word>)
    requires Ok(dev.s) && Conserved(s, dev.s, taken)
    modifies dev
    ensures Ok(dev.s) && Conserved(s, dev.s, taken)
    ensures |dev.polls| == |old(dev.polls)| + 1 && old(dev.polls) <= dev.polls
    ensures Count(Data, old(dev.polls)) <= Count(Data, dev.polls) <= Count(Data, old(dev.polls)) + 1
  {
    ghost var t, polls := dev.s, dev.polls;
    var cs := dev.PollCs();
    CountGrows(Data, polls, dev.s);
    EngineConserves(s, t, dev.s, taken);
  }

  // ----- The history of polls -----

  /** A poll that found nothing to read; in a transfer of direction `write` = false the RX FIFO was empty. */
  ghost predicate Dry(p: State, write: bool) {
    p.write == write && (write || p.rx == [])
  }

  /** The last `n` polls were dry. */
  ghost predicate DrySpell(polls: seq<State>, n: nat, write: bool) {
    n <= |polls| && forall i | |polls| - n <= i < |polls| :: Dry(polls[i], write)
  }

  lemma DrySpellGrows(polls: seq<State>, p: State, n: nat, write: bool)
    requires DrySpell(polls, n, write) && Dry(p, write)
    ensures DrySpell(polls + [p], n + 1, write)
  {
  }

  /** The polls made since the history was `before`. */
  ghost function Since(before: seq<State>, polls: seq<State>): seq<State>
    requires before <= polls
  {
    polls[|before|..]
  }

  lemma OnePollMore(before: seq<State>, a: seq<State>, b: seq<State>)
    requires before <= a <= b && |b| == |a| + 1
    ensures Since(before, b) == Since(before, a) + [b[|a|]]
  {
  }

  /**
   The budget of a loop whose spin counter is reset by every word: `polls` have been made, of which `sleeps` slept in
   full. Since the last word there have been `spin`.
   */
  ghost predicate Budget(polls: int, sleeps: int, count: nat, spin: nat, started: int, now: int) {
    && started <= now && polls <= count + SPIN_SOFT_LIMIT * count + Min(spin, SPIN_SOFT_LIMIT) + sleeps
    && spin <= polls - count && (sleeps > 0 ==> sleeps + SPIN_SOFT_LIMIT <= polls - count)
    && 0 <= sleeps < SleepsIn(PROG_READ_TIMEOUT_S) && sleeps * SLEEP_NS <= now - started
    && (sleeps > 0 ==> now < started + PROG_READ_TIMEOUT_S * NS_PER_S)
  }

  lemma BudgetAtFirst(started: int)
    ensures Budget(0, 0, 0, 0, started, started)
  {
  }

  lemma WordTaken(polls: int, sleeps: int, count: nat, spin: nat, started: int, now: int)
    requires Budget(polls, sleeps, count, spin, started, now)
    ensures Budget(polls + 1, sleeps, count + 1, 0, started, now)
  {
  }

  /** The wait after a dry poll. */
  method DryWait(clock: Clock, deadline: int, spin: nat, ghost polls: int, ghost sleeps: int, ghost count: nat,
                 ghost started: int)
      returns (expired: bool, ghost sleeps': int)
    requires Budget(polls, sleeps, count, spin, started, clock.now)
    requires deadline == started + PROG_READ_TIMEOUT_S * NS_PER_S
    modifies clock
    ensures clock.now >= old(clock.now) && (expired ==> clock.now >= deadline && spin >= SPIN_YIELD_LIMIT)
    ensures !expired ==> Budget(polls + 1, sleeps', count, spin + 1, started, clock.now)
    ensures !expired && spin >= SPIN_SOFT_LIMIT ==> old(clock.now) < clock.now < deadline
    ensures !expired ==> Napped(old(clock.slept), clock.slept, sleeps' - sleeps)
    ensures Napped(old(clock.slept), clock.slept, 0) ||
            (spin >= SPIN_SOFT_LIMIT && Napped(old(clock.slept), clock.slept, 1))
  {
    expired := TimeoutApply(clock, deadline, SpinTier(spin));
    sleeps' := if spin < SPIN_SOFT_LIMIT then sleeps else sleeps + 1;
  }

  /** The polls of a read of `len` words: one and at most 512 dry ones for each, the full sleeps, and the last look. */
  function MostPolls(len: nat): nat {
    len + SPIN_SOFT_LIMIT * len + SleepsIn(PROG_READ_TIMEOUT_S) + 1
  }

  /**
   What the histories of polls and sleeps say of a read of `len` words that has stored `got`: there are not too many
   polls; no word that was seen is left untaken, but for one seen by the last look of a normal return; it slept only
   after 512 polls in vain, and then at every poll; and if it timed out, more than 192 polls in a row, the last ones
   made, have found nothing.
   */
  ghost predicate PolledRead(polls0: seq<State>, polls: seq<State>, slept0: seq<nat>, slept: seq<nat>,
                             len: nat, got: nat, write: bool)
  {
    polls0 <= polls &&
    var n, seen := |polls| - |polls0|, Count(Data, polls) - Count(Data, polls0);
    && n <= MostPolls(len)
    && (if got < len then seen == got else got <= seen <= got + 1)
    && RestsLate(slept0, slept, n - got) && n <= got + SPIN_SOFT_LIMIT * (got + 1) + |slept| - |slept0| + 1
    && (got < len ==> DrySpell(Since(polls0, polls), SPIN_YIELD_LIMIT + 1, write))
  }

  /** The same while the loop runs, with `count` words stored and `spin` dry polls since the last of them. */
  ghost predicate Polling(polls0: seq<State>, polls: seq<State>, slept0: seq<nat>, slept: seq<nat>,
                          count: nat, spin: nat, write: bool, started: int, now: int)
  {
    && polls0 <= polls && DrySpell(Since(polls0, polls), spin, write)
    && Count(Data, polls) == Count(Data, polls0) + count
    && Napped(slept0, slept, |slept| - |slept0|)
    && Budget(|polls| - |polls0|, |slept| - |slept0|, count, spin, started, now)
  }

  lemma NotPolledYet(polls: seq<State>, slept: seq<nat>, write: bool, started: int)
    ensures Polling(polls, polls, slept, slept, 0, 0, write, started, started)
  {
    BudgetAtFirst(started);
  }

  lemma PollingTime(polls0: seq<State>, polls: seq<State>, slept0: seq<nat>, slept: seq<nat>,
                    count: nat, spin: nat, write: bool, started: int, now: int)
    requires Polling(polls0, polls, slept0, slept, count, spin, write, started, now)
    ensures started <= now && polls0 <= polls
  {
  }

  lemma PolledData(polls0: seq<State>, a: seq<State>, b: seq<State>, slept0: seq<nat>, slept: seq<nat>,
                   count: nat, spin: nat, write: bool, started: int, now: int)
    requires Polling(polls0, a, slept0, slept, count, spin, write, started, now)
    requires a <= b && |b| == |a| + 1 && Count(Data, b) == Count(Data, a) + 1
    ensures Polling(polls0, b, slept0, slept, count + 1, 0, write, started, now)
  {
    hide Napped, Budget, Dry, Count;
    WordTaken(|a| - |polls0|, |slept| - |slept0|, count, spin, started, now);
  }

  lemma PolledNothing(polls0: seq<State>, a: seq<State>, b: seq<State>, slept0: seq<nat>, c: seq<nat>, d: seq<nat>,
                      count: nat, spin: nat, write: bool, started: int, now: int, now': int)
    requires Polling(polls0, a, slept0, c, count, spin, write, started, now)
    requires a <= b && |b| == |a| + 1 && Count(Data, b) == Count(Data, a) && Dry(b[|a|], write)
    requires Napped(c, d, |d| - |c|) && Budget(|a| - |polls0| + 1, |d| - |slept0|, count, spin + 1, started, now')
    ensures Polling(polls0, b, slept0, d, count, spin + 1, write, started, now')
  {
    hide Napped, Budget, Dry, DrySpell, Since, Count;
    NappedMore(slept0, c, d, |c| - |slept0|, |d| - |c|);
    DrySpellGrows(Since(polls0, a), b[|a|], spin, write);
    OnePollMore(polls0, a, b);
  }

  /** The last poll of a read that times out. */
  lemma PolledLast(polls0: seq<State>, a: seq<State>, b: seq<State>, slept0: seq<nat>, c: seq<nat>, d: seq<nat>,
                   len: nat, count: nat, spin: nat, write: bool, started: int, now: int)
    requires Polling(polls0, a, slept0, c, count, spin, write, started, now) && count < len && spin >= SPIN_YIELD_LIMIT
    requires a <= b && |b| == |a| + 1 && Count(Data, b) == Count(Data, a) && Dry(b[|a|], write)
    requires Napped(c, d, |d| - |c|) && |d| - |c| <= if spin >= SPIN_SOFT_LIMIT then 1 else 0
    ensures PolledRead(polls0, b, slept0, d, len, count, write)
  {
    hide Napped, Dry, DrySpell, Since, Count;
    NappedMore(slept0, c, d, |c| - |slept0|, |d| - |c|);
    NappedGrows(c, d, |d| - |c|);
    DrySpellGrows(Since(polls0, a), b[|a|], spin, write);
    OnePollMore(polls0, a, b);
    ShorterSpell(Since(polls0, b), SPIN_YIELD_LIMIT + 1, spin + 1, write);
  }

  lemma NappedGrows(a: seq<nat>, b: seq<nat>, n: int)
    requires Napped(a, b, n)
    ensures n >= 0 && |b| == |a| + n
  {
  }

  /** The last look of a read that has all its words. */
  lemma PolledAll(polls0: seq<State>, a: seq<State>, b: seq<State>, slept0: seq<nat>, slept: seq<nat>,
                  len: nat, spin: nat, write: bool, started: int, now: int)
    requires Polling(polls0, a, slept0, slept, len, spin, write, started, now) && spin == 0
    requires a <= b && |b| == |a| + 1 && Count(Data, a) <= Count(Data, b) <= Count(Data, a) + 1
    ensures PolledRead(polls0, b, slept0, slept, len, len, write)
  {
    hide Napped, DrySpell, Since, Count;
  }

  /** One iteration: a poll, and if it was dry, a wait. */
  method ReadOnce(dev: Smi, clock: Clock, deadline: int, spin: nat, ghost polls0: seq<State>, ghost slept0: seq<nat>,
                  ghost started: int, ghost s: State, ghost taken: seq<Word>, ghost len: nat)
      returns (ready: bool, expired: bool, w: Word)
    requires Ok(dev.s) && Conserved(s, dev.s, taken) && |taken| < len
    requires Polling(polls0, dev.polls, slept0, clock.slept, |taken|, spin, s.write, started, clock.now)
    requires deadline == started + PROG_READ_TIMEOUT_S * NS_PER_S
    modifies dev, clock
    ensures Ok(dev.s) && Conserved(s, dev.s, if ready then taken + [w] else taken)
    ensures ready ==> !expired && clock.now == old(clock.now)
    ensures ready ==>
              Polling(polls0, dev.polls, slept0, clock.slept, |taken| + 1, 0, s.write, started, clock.now)
    ensures !ready && !expired ==>
              Polling(polls0, dev.polls, slept0, clock.slept, |taken|, spin + 1, s.write, started, clock.now)
    ensures !ready && !expired && spin >= SPIN_SOFT_LIMIT ==> old(clock.now) < clock.now < deadline
    ensures expired ==>
              clock.now >= deadline && PolledRead(polls0, dev.polls, slept0, clock.slept, len, |taken|, s.write)
  {
    hide Conserved, Napped, Dry, DrySpell, Since, Count, Budget;
    ghost var polls, slept, now := dev.polls, clock.slept, clock.now;
    expired := false;
    ready, w := PollWord(dev, s, taken);
    if ready {
      PolledData(polls0, polls, dev.polls, slept0, slept, |taken|, spin, s.write, started, now);
      return;
    }
    ghost var sleeps := |slept| - |slept0|;
    expired, sleeps := DryWait(clock, deadline, spin, |polls| - |polls0|, sleeps, |taken|, started);
    NapsInWait(slept, clock.slept, sleeps - (|slept| - |slept0|), spin);
    if expired {
      PolledLast(polls0, polls, dev.polls, slept0, slept, clock.slept, len, |taken|, spin, s.write, started, now);
    } else {
      PolledNothing(polls0, polls, dev.polls, slept0, slept, clock.slept, |taken|, spin, s.write, started, now,
                    clock.now);
    }
  }

  lemma NapsInWait(a: seq<nat>, b: seq<nat>, n: int, spin: nat)
    requires Napped(a, b, 0) || (spin >= SPIN_SOFT_LIMIT && Napped(a, b, 1))
    ensures Napped(a, b, |b| - |a|) && |b| - |a| <= if spin >= SPIN_SOFT_LIMIT then 1 else 0
    ensures Napped(a, b, n) ==> n == |b| - |a|
  {
  }

  /** The polled read loop of src/smi.c. `got` words were stored. */
  method SmiReadAwait(dev: Smi, clock: Clock, ret: array?<Word>, len: int) returns (r: int, ghost got: nat)
    requires Ok(dev.s) && (ret != null ==> len <= ret.Length)
    modifies dev, clock, ret
    ensures Ok(dev.s)
    ensures ret == null ==> r == SMI_ERR_NULL_PTR && dev.s == old(dev.s) && dev.polls == old(dev.polls)
    ensures ret != null ==>
              got <= Max(len, 0) <= ret.Length && forall i | got <= i < ret.Length :: ret[i] == old(ret[i])
    // A normal return: exactly the first `len` words, in order; the rest is still in the FIFO.
    ensures ret != null && got == Max(len, 0) ==> r == got && Conserved(old(dev.s), dev.s, ret[..got])
    // A timeout: not before the deadline, and what was stored is a prefix of the stream.
    ensures ret != null && got < len ==>
              r == -SMI_ERR_TIMEOUT && Abandoned(old(dev.s), dev.s, ret[..got]) &&
              clock.now >= old(clock.now) + PROG_READ_TIMEOUT_S * NS_PER_S
    // However the device behaves, the polls and sleeps are these.
    ensures ret != null ==>
              PolledRead(old(dev.polls), dev.polls, old(clock.slept), clock.slept, Max(len, 0), got, old(dev.s.write))
  {
    hide Conserved, Abandoned, Polling, PolledRead, Count;
    got := 0;
    if ret == null {
      return SMI_ERR_NULL_PTR, 0;
    }
    var count: nat, spin: nat := 0, 0;
    ghost var s0, polls0, slept0 := dev.s, dev.polls, clock.slept;
    var deadline := StartTimeout(clock, PROG_READ_TIMEOUT_S);
    ghost var started := clock.now;
    NotPolledYet(polls0, slept0, s0.write, started);
    TakesNothing(s0);
    assert ret[..count] == [];

    while count < len
      invariant 0 <= count <= Max(len, 0) && got == count && Ok(dev.s)
      invariant Conserved(s0, dev.s, ret[..count])
      invariant forall i | count <= i < ret.Length :: ret[i] == old(ret[i])
      invariant count >= len ==> spin == 0
      invariant Polling(polls0, dev.polls, slept0, clock.slept, count, spin, s0.write, started, clock.now)
      decreases len - count, SpinsLeft(spin), deadline - clock.now
    {
      label Head:
      PollingTime(polls0, dev.polls, slept0, clock.slept, count, spin, s0.write, started, clock.now);
      var ready, expired, w := ReadOnce(dev, clock, deadline, spin, polls0, slept0, started, s0, ret[..count], len);
      if ready {
        ret[count] := w;
        count := count + 1;
        got, spin := count, 0;
        assert ret[..count] == old@Head(ret[..count - 1]) + [w];
        continue;
      }
      if expired {
        ClearFifos(dev, s0, ret[..count]);
        return -SMI_ERR_TIMEOUT, count;
      }
      spin := spin + 1;
    }
    ghost var polls := dev.polls;
    PollLeftover(dev, s0, ret[..count]);
    PolledAll(polls0, polls, dev.polls, slept0, clock.slept, count, spin, s0.write, started, clock.now);
    r := count;
  }

  lemma ShorterSpell(polls: seq<State>, m: nat, n: nat, write: bool)
    requires m <= n && DrySpell(polls, n, write)
    ensures DrySpell(polls, m, write)
  {
  }
}
