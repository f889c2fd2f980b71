/** Programmed writes: `smi_write_await` of src/smi.c, against an engine that drains the TX FIFO at its own pace. */
module WriteAwait {
  import opened Words
  import opened Device
  import opened Timeout

  const PROG_WRITE_TIMEOUT_S: nat := 50

  /**
   The writer's side of a transfer: nothing but the engine and the writer's own pushes has happened since `s`.
   Conservation: the words on the bus followed by the TX FIFO are what was there at `s` and then what was pushed.
   DONE that was clear at `s` is only ever set by the transfer having sent its full length.
   */
  ghost predicate Sending(s: State, t: State, pushed: seq<Word>) {
    && SameSetup(s, t)
    && t.sent + t.tx == s.sent + s.tx + pushed
    && (t.aferr ==> s.aferr)
    && (t.done && !s.done && s.write ==> |t.sent| == s.length)
  }

  lemma SendsNothing(s: State)
    ensures Sending(s, s, [])
  {
    assert s.sent + s.tx == s.sent + s.tx + [];
  }

  lemma EngineSends(s: State, t: State, u: State, pushed: seq<Word>)
    requires Ok(t) && Sending(s, t, pushed) && Runs(t, u)
    ensures Sending(s, u, pushed) && |u.tx| <= |t.tx|
  {
    if t.active && t.write {
      assert u.sent == t.sent + u.sent[|t.sent|..];
      assert u.sent + u.tx == t.sent + t.tx;
    }
  }

  /** After the FIFOs were cleared: the device has received a prefix of what was pushed, and nothing overflowed. */
  ghost predicate CutShort(s: State, t: State, pushed: seq<Word>) {
    SameSetup(s, t) && t.tx == [] && t.sent <= s.sent + s.tx + pushed && (t.aferr ==> s.aferr)
  }

  lemma EngineStaysCut(s: State, t: State, u: State, pushed: seq<Word>)
    requires Ok(t) && CutShort(s, t, pushed) && Runs(t, u)
    ensures CutShort(s, u, pushed)
  {
    if t.active && t.write {
      assert u.sent[|t.sent|..] == [];
      assert u.sent == t.sent + u.sent[|t.sent|..];
    }
  }

  /**
   From `s` to `t` and from the polls `before` to `after`, DONE was not cleared and AFERR not touched, and at most
   `most` polls saw room in the FIFO after the end of the transfer.
   */
  ghost predicate Watched(s: State, before: seq<State>, t: State, after: seq<State>, most: nat) {
    && before <= after && (s.done ==> t.done) && t.aferr == s.aferr
    && Count(DoneAndRoom, before) <= Count(DoneAndRoom, after) <= Count(DoneAndRoom, before) + most
    && (!t.done ==> Count(DoneAndRoom, after) == Count(DoneAndRoom, before))
  }

  lemma WatchedOn(s: State, a: seq<State>, t: State, b: seq<State>, u: State, c: seq<State>, m: nat, n: nat)
    requires Watched(s, a, t, b, m) && Watched(t, b, u, c, n)
    ensures Watched(s, a, u, c, m + n)
  {
  }

  lemma WatchedWaits(s: State, a: seq<State>, t: State, b: seq<State>, m: nat)
    requires Watched(s, a, t, b, m)
    ensures a <= b && t.aferr == s.aferr
    ensures !t.done ==> Watched(s, a, t, b, 0)
    ensures forall n: nat | n >= m :: Watched(s, a, t, b, n)
  {
  }

  /** A poll of DONE or TXD; room seen in the FIFO stays there, as only the writer fills it. */
  method PollCs(dev: Smi, ghost s: State, ghost pushed: seq<Word>) returns (cs: Cs)
    requires Ok(dev.s) && Sending(s, dev.s, pushed)
    modifies dev
    ensures Ok(dev.s) && Sending(s, dev.s, pushed) && cs == ReadCs(dev.s)
    ensures |dev.s.tx| <= |old(dev.s.tx)| && old(dev.polls) <= dev.polls && |dev.polls| == |old(dev.polls)| + 1
    ensures Count(NoRoom, dev.polls) == Count(NoRoom, old(dev.polls)) + if cs.txd then 0 else 1
    ensures Watched(old(dev.s), old(dev.polls), dev.s, dev.polls, if cs.txd then 1 else 0)
  {
    ghost var t, polls := dev.s, dev.polls;
    cs := dev.PollCs();
    CountGrows(NoRoom, polls, dev.s);
    CountGrows(DoneAndRoom, polls, dev.s);
    DoneMeansComplete(t, dev.s);
    EngineSends(s, t, dev.s, pushed);
  }

  /** One word into a FIFO that has been seen to have room. */
  method PushWord(dev: Smi, w: Word, ghost s: State, ghost pushed: seq<Word>)
    requires Ok(dev.s) && Sending(s, dev.s, pushed) && |dev.s.tx| < FIFO_DEPTH
    modifies dev`s
    ensures Ok(dev.s) && Sending(s, dev.s, pushed + [w])
    ensures |dev.s.tx| <= |old(dev.s.tx)| + 1
    ensures Watched(old(dev.s), dev.polls, dev.s, dev.polls, 0)
  {
    ghost var t := dev.s;
    dev.Advance();
    EngineSends(s, t, dev.s, pushed);
    t := dev.s;
    dev.WriteD(w);
    assert dev.s.sent + dev.s.tx == t.sent + t.tx + [w];
  }

  method ClearFifos(dev: Smi, ghost s: State, ghost pushed: seq<Word>)
    requires Ok(dev.s) && Sending(s, dev.s, pushed)
    modifies dev`s
    ensures Ok(dev.s) && CutShort(s, dev.s, pushed) && (dev.s.aferr ==> old(dev.s.aferr))
  {
    ghost var t := dev.s;
    ghost var a, b := dev.SetCs(Clear, true);
    RunsStaysOk(t, a);
    EngineSends(s, t, a, pushed);
    EngineSends(s, a, b, pushed);
  }

  method AcknowledgeDone(dev: Smi, ghost s: State, ghost pushed: seq<Word>)
    requires Ok(dev.s) && CutShort(s, dev.s, pushed)
    modifies dev`s
    ensures Ok(dev.s) && CutShort(s, dev.s, pushed) && !dev.s.done
  {
    ghost var t := dev.s;
    ghost var a, b := dev.SetCs(Done, true);
    RunsStaysOk(t, a);
    EngineStaysCut(s, t, a, pushed);
    EngineStaysCut(s, a, b, pushed);
    assert dev.s.sent == b.sent && dev.s.tx == b.tx;
  }

  method GiveUp(dev: Smi, ghost s: State, ghost pushed: seq<Word>)
    requires Ok(dev.s) && Sending(s, dev.s, pushed)
    modifies dev`s
    ensures Ok(dev.s) && CutShort(s, dev.s, pushed) && !dev.s.done
  {
    ClearFifos(dev, s, pushed);
    AcknowledgeDone(dev, s, pushed);
  }

  /** Leaves the loop on an AXI FIFO error: the flag is acknowledged and the FIFOs are cleared. */
  method ReportFifoError(dev: Smi, ghost s: State, ghost pushed: seq<Word>)
    requires Ok(dev.s) && Sending(s, dev.s, pushed)
    modifies dev`s
    ensures Ok(dev.s) && CutShort(s, dev.s, pushed) && !dev.s.aferr
  {
    ghost var t := dev.s;
    ghost var a, b := dev.SetCs(Aferr, true);
    RunsStaysOk(t, a);
    EngineSends(s, t, a, pushed);
    EngineSends(s, a, b, pushed);
    assert dev.s.sent == b.sent && dev.s.tx == b.tx && dev.s.write == b.write;
    ClearFifos(dev, s, pushed);
  }

  /** The inner loop: waits for TXD, spending from the same spin counter as its caller. */
  method AwaitRoom(dev: Smi, clock: Clock, deadline: int, start: nat, ghost started: int, ghost slept0: seq<nat>,
                   ghost s: State, ghost pushed: seq<Word>)
      returns (expired: bool, spin: nat)
    requires Ok(dev.s) && Sending(s, dev.s, pushed) && Rested(slept0, clock.slept, start)
    requires deadline == started + PROG_WRITE_TIMEOUT_S * NS_PER_S && Patient(start, started, clock.now, deadline)
    modifies dev, clock
    ensures Ok(dev.s) && Sending(s, dev.s, pushed) && clock.now >= old(clock.now) && spin >= start
    ensures old(dev.polls) <= dev.polls && |dev.polls| == |old(dev.polls)| + 1 + spin - start
    ensures Count(NoRoom, dev.polls) == Count(NoRoom, old(dev.polls)) + spin - start + if expired then 1 else 0
    ensures Watched(old(dev.s), old(dev.polls), dev.s, dev.polls, 1)
    ensures expired ==> spin >= SPIN_YIELD_LIMIT
    ensures expired ==> clock.now >= deadline && spin <= SPIN_SOFT_LIMIT + SleepsIn(PROG_WRITE_TIMEOUT_S)
    ensures expired ==> RestsLate(slept0, clock.slept, spin + 1) && spin <= SPIN_SOFT_LIMIT + |clock.slept| - |slept0|
    ensures !expired ==> |dev.s.tx| < FIFO_DEPTH && Patient(spin, started, clock.now, deadline)
    ensures !expired ==> Rested(slept0, clock.slept, spin)
  {
    hide Sending, Patient, Count, Watched, Rested, RestsLate;
    spin, expired := start, false;
    ghost var t, polls := dev.s, dev.polls;
    var cs := PollCs(dev, s, pushed);
    while !cs.txd
      invariant Ok(dev.s) && Sending(s, dev.s, pushed) && cs == ReadCs(dev.s)
      invariant spin >= start && clock.now >= old(clock.now) && Patient(spin, started, clock.now, deadline)
      invariant Rested(slept0, clock.slept, spin)
      invariant old(dev.polls) <= dev.polls && |dev.polls| == |old(dev.polls)| + 1 + spin - start
      invariant Count(NoRoom, dev.polls) == Count(NoRoom, old(dev.polls)) + spin - start + if cs.txd then 0 else 1
      invariant Watched(t, polls, dev.s, dev.polls, if cs.txd then 1 else 0)
      decreases SpinsLeft(spin), deadline - clock.now
    {
      PatienceIsBounded(spin, started, clock.now, PROG_WRITE_TIMEOUT_S);
      expired := RestedWait(clock, deadline, spin, started, slept0);
      if expired {
        WatchedWaits(t, polls, dev.s, dev.polls, 0);
        return;
      }
      spin := spin + 1;
      ghost var u, b := dev.s, dev.polls;
      cs := PollCs(dev, s, pushed);
      WatchedOn(t, polls, u, b, dev.s, dev.polls, 0, if cs.txd then 1 else 0);
    }
  }

  /** The next data word, as long as no more than `len + 1` words have been pushed. */
  method PushNext(dev: Smi, data: array<Word>, count: nat, len: int, ghost s: State) returns (next: nat)
    requires Ok(dev.s) && count <= data.Length && len < data.Length && |dev.s.tx| < FIFO_DEPTH
    requires Sending(s, dev.s, data[..count])
    modifies dev`s
    ensures Ok(dev.s) && next <= data.Length && Sending(s, dev.s, data[..next])
    ensures next == if count < len + 1 then count + 1 else count
    ensures Watched(old(dev.s), dev.polls, dev.s, dev.polls, 0)
  {
    next := count;
    if count < len + 1 {
      PushWord(dev, data[count], s, data[..count]);
      next := count + 1;
      assert data[..next] == data[..count] + [data[count]];
    }
  }

  /** The rest of an iteration, once there is room: push, wait, and look at AFERR. */
  method PushAndCheck(dev: Smi, clock: Clock, deadline: int, spin: nat, data: array<Word>, count: nat, len: int,
                      ghost started: int, ghost slept0: seq<nat>, ghost s: State)
      returns (expired: bool, failed: bool, next: nat)
    requires Ok(dev.s) && count <= Max(len + 1, 0) && len < data.Length && |dev.s.tx| < FIFO_DEPTH
    requires Sending(s, dev.s, data[..count]) && Patient(spin, started, clock.now, deadline)
    requires Rested(slept0, clock.slept, spin)
    modifies dev, clock
    ensures Ok(dev.s) && next <= Max(len + 1, 0) && Sending(s, dev.s, data[..next])
    ensures next == if count < len + 1 then count + 1 else count
    ensures clock.now >= old(clock.now) && old(dev.polls) <= dev.polls
    ensures Count(NoRoom, dev.polls) >= Count(NoRoom, old(dev.polls))
    ensures Watched(old(dev.s), old(dev.polls), dev.s, dev.polls, 1)
    ensures expired ==> dev.polls == old(dev.polls) && clock.now >= deadline && spin >= SPIN_YIELD_LIMIT
    ensures expired ==> RestsLate(slept0, clock.slept, spin + 1) && spin <= SPIN_SOFT_LIMIT + |clock.slept| - |slept0|
    ensures !expired ==> Patient(spin + 1, started, clock.now, deadline) && Rested(slept0, clock.slept, spin + 1)
    ensures !expired ==> |dev.polls| == |old(dev.polls)| + 1 && failed == dev.s.aferr
    ensures !expired && spin >= SPIN_SOFT_LIMIT ==> old(clock.now) < clock.now < deadline
  {
    hide Sending, Patient, Count, Watched, Rested, RestsLate;
    failed := false;
    ghost var t, polls := dev.s, dev.polls;
    next := PushNext(dev, data, count, len, s);
    expired := RestedWait(clock, deadline, spin, started, slept0);
    WatchedWaits(t, polls, dev.s, dev.polls, 0);
    if expired {
      return;
    }
    ghost var u := dev.s;
    var cs := PollCs(dev, s, data[..next]);
    WatchedOn(t, polls, u, polls, dev.s, dev.polls, 0, if cs.txd then 1 else 0);
    WatchedWaits(t, polls, dev.s, dev.polls, if cs.txd then 1 else 0);
    failed := cs.aferr;
  }

  /** One iteration: wait for room, push, wait, and look at AFERR. */
  method WriteRound(dev: Smi, clock: Clock, deadline: int, start: nat, data: array<Word>, count: nat, len: int,
                    ghost started: int, ghost slept0: seq<nat>, ghost s: State)
      returns (expired: bool, failed: bool, spin: nat, next: nat)
    requires Ok(dev.s) && count <= Max(len + 1, 0) && len < data.Length && Sending(s, dev.s, data[..count])
    requires deadline == started + PROG_WRITE_TIMEOUT_S * NS_PER_S && Patient(start, started, clock.now, deadline)
    requires Rested(slept0, clock.slept, start)
    modifies dev, clock
    ensures Ok(dev.s) && next <= Max(len + 1, 0) && Sending(s, dev.s, data[..next])
    ensures next == count || (next == count + 1 && count < len + 1)
    ensures clock.now >= old(clock.now) && old(dev.polls) <= dev.polls && start <= spin
    ensures |dev.polls| == |old(dev.polls)| + 1 + spin - start
    ensures Count(NoRoom, dev.polls) >= Count(NoRoom, old(dev.polls)) + spin - start - if expired then 0 else 1
    ensures Watched(old(dev.s), old(dev.polls), dev.s, dev.polls, 2)
    ensures expired ==>
              && clock.now >= deadline && spin <= SPIN_SOFT_LIMIT + SleepsIn(PROG_WRITE_TIMEOUT_S)
              && spin >= SPIN_YIELD_LIMIT
              && RestsLate(slept0, clock.slept, spin + 1) && spin <= SPIN_SOFT_LIMIT + |clock.slept| - |slept0|
    ensures !expired ==>
              && start < spin && Patient(spin, started, clock.now, deadline) && Rested(slept0, clock.slept, spin)
              && failed == dev.s.aferr && next == if count < len + 1 then count + 1 else count
    ensures !expired && start >= SPIN_SOFT_LIMIT ==> old(clock.now) < clock.now < deadline
  {
    hide Sending, Patient, Count, Watched, Rested, RestsLate;
    ghost var t, polls := dev.s, dev.polls;
    failed, next := false, count;
    expired, spin := AwaitRoom(dev, clock, deadline, start, started, slept0, s, data[..count]);
    WatchedWaits(t, polls, dev.s, dev.polls, 1);
    if expired {
      return;
    }
    PatienceIsBounded(spin, started, clock.now, PROG_WRITE_TIMEOUT_S);
    ghost var u, b := dev.s, dev.polls;
    expired, failed, next := PushAndCheck(dev, clock, deadline, spin, data, count, len, started, slept0, s);
    WatchedOn(t, polls, u, b, dev.s, dev.polls, 1, 1);
    if !expired {
      spin := spin + 1;
    }
  }

  datatype Ending = NoData | Finished | TimedOut | FifoError

  /** The most polls of DONE, TXD and AFERR that a write can make. */
  function MostWritePolls(): nat {
    3 * (SPIN_SOFT_LIMIT + SleepsIn(PROG_WRITE_TIMEOUT_S) + 1)
  }

  /**
   What the histories of polls and sleeps say of a write of `len` words that has pushed `pushed`: there are not too
   many polls; it ends when the transfer is done, after which at most the two polls of one more iteration see room; it
   sleeps only after 512 waits, and then at every one; and if it timed out, it has polled more than 192 times and,
   unless all words are pushed, each of 192 waits came after a push or a poll without room.
   */
  ghost predicate PolledWrite(polls0: seq<State>, polls: seq<State>, slept0: seq<nat>, slept: seq<nat>,
                              len: int, pushed: nat, ending: Ending)
  {
    polls0 <= polls &&
    var n := |polls| - |polls0|;
    && n <= MostWritePolls()
    && Count(DoneAndRoom, polls) - Count(DoneAndRoom, polls0) <= (if ending.Finished? then 3 else 2)
    && RestsLate(slept0, slept, n) && n <= 3 * (SPIN_SOFT_LIMIT + |slept| - |slept0| + 1)
    && (ending.TimedOut? ==>
          && n > SPIN_YIELD_LIMIT
          && (pushed <= len ==> pushed + Count(NoRoom, polls) - Count(NoRoom, polls0) >= SPIN_YIELD_LIMIT))
  }

  /** The same at the head of the loop, after `spin` waits. */
  ghost predicate Writing(s: State, polls0: seq<State>, t: State, polls: seq<State>, slept0: seq<nat>, slept: seq<nat>,
                          len: int, pushed: nat, spin: nat)
  {
    && polls0 <= polls && Watched(s, polls0, t, polls, 3) && Rested(slept0, slept, spin)
    && 1 + spin <= |polls| - |polls0| <= 1 + 3 * spin
    && (pushed <= len ==> spin <= pushed + Count(NoRoom, polls) - Count(NoRoom, polls0))
    && (spin == 0 ==> pushed == 0) && (s.aferr ==> spin == 0)
  }

  lemma FirstPoll(s: State, polls0: seq<State>, t: State, polls: seq<State>, slept: seq<nat>, len: int, most: nat)
    requires Watched(s, polls0, t, polls, most) && most <= 1 && |polls| == |polls0| + 1
    requires Count(NoRoom, polls) >= Count(NoRoom, polls0)
    ensures Writing(s, polls0, t, polls, slept, slept, len, 0, 0)
  {
    hide Count;
    WatchedWaits(s, polls0, t, polls, most);
    NotRested(slept);
  }

  lemma WritingGoesOn(s: State, polls0: seq<State>, t: State, a: seq<State>, u: State, b: seq<State>,
                      v: State, c: seq<State>, slept0: seq<nat>, slept: seq<nat>, slept': seq<nat>,
                      len: int, pushed: nat, next: nat, start: nat, spin: nat, most: nat)
    requires Writing(s, polls0, t, a, slept0, slept, len, pushed, start) && !t.done && start < spin
    requires Watched(t, a, u, b, 2) && |b| == |a| + 1 + spin - start
    requires Watched(u, b, v, c, most) && most <= 1 && |c| == |b| + 1 && Count(NoRoom, b) <= Count(NoRoom, c)
    requires Count(NoRoom, b) >= Count(NoRoom, a) + spin - start - 1
    requires next == if pushed < len + 1 then pushed + 1 else pushed
    requires Rested(slept0, slept', spin) && !u.aferr
    ensures Writing(s, polls0, v, c, slept0, slept', len, next, spin)
  {
    hide Count, Rested, Watched;
    WatchedWaits(s, polls0, t, a, 3);
    WatchedOn(s, polls0, t, a, u, b, 0, 2);
    WatchedWaits(s, polls0, u, b, 2);
    WatchedOn(s, polls0, u, b, v, c, 2, most);
    WatchedWaits(s, polls0, v, c, 2 + most);
  }

  lemma WritingStops(s: State, polls0: seq<State>, t: State, a: seq<State>, u: State, b: seq<State>,
                     slept0: seq<nat>, slept: seq<nat>, slept': seq<nat>,
                     len: int, pushed: nat, next: nat, start: nat, spin: nat, ending: Ending)
    requires Writing(s, polls0, t, a, slept0, slept, len, pushed, start) && !t.done && start <= spin
    requires Watched(t, a, u, b, 2) && |b| == |a| + 1 + spin - start && ending != Finished
    requires next == pushed || (next == pushed + 1 && pushed < len + 1)
    requires RestsLate(slept0, slept', spin + 1) && spin <= SPIN_SOFT_LIMIT + |slept'| - |slept0|
    requires spin <= SPIN_SOFT_LIMIT + SleepsIn(PROG_WRITE_TIMEOUT_S)
    requires ending.TimedOut? ==>
               spin >= SPIN_YIELD_LIMIT && Count(NoRoom, b) >= Count(NoRoom, a) + spin - start
    ensures PolledWrite(polls0, b, slept0, slept', len, next, ending)
    ensures u.aferr == s.aferr && (s.aferr ==> next <= 1)
  {
    hide Count, RestsLate, Rested, Watched;
    WatchedWaits(s, polls0, t, a, 3);
    WatchedOn(s, polls0, t, a, u, b, 0, 2);
    WatchedWaits(s, polls0, u, b, 2);
    WatchedCount(s, polls0, u, b, 2);
    RestsLater(slept0, slept', spin + 1, |b| - |polls0|);
  }

  lemma WritingEnds(s: State, polls0: seq<State>, t: State, polls: seq<State>, slept0: seq<nat>, slept: seq<nat>,
                    len: int, pushed: nat, spin: nat)
    requires Writing(s, polls0, t, polls, slept0, slept, len, pushed, spin)
    requires spin <= SPIN_SOFT_LIMIT + SleepsIn(PROG_WRITE_TIMEOUT_S)
    ensures PolledWrite(polls0, polls, slept0, slept, len, pushed, Finished)
    ensures s.aferr ==> pushed == 0
  {
    hide Count, RestsLate, Rested, Watched;
    WatchedCount(s, polls0, t, polls, 3);
    RestedRestsLate(slept0, slept, spin);
    RestsLater(slept0, slept, spin, |polls| - |polls0|);
  }

  lemma WatchedCount(s: State, a: seq<State>, t: State, b: seq<State>, most: nat)
    requires Watched(s, a, t, b, most)
    ensures Count(DoneAndRoom, b) - Count(DoneAndRoom, a) <= most
  {
  }

  /** One iteration and the next poll of DONE, with what the histories say. */
  method WriteIterate(dev: Smi, clock: Clock, deadline: int, start: nat, data: array<Word>, count: nat, len: int,
                      ghost started: int, ghost polls0: seq<State>, ghost slept0: seq<nat>, ghost s: State)
      returns (expired: bool, failed: bool, done: bool, spin: nat, next: nat)
    requires Ok(dev.s) && count <= Max(len + 1, 0) && len < data.Length && Sending(s, dev.s, data[..count])
    requires deadline == started + PROG_WRITE_TIMEOUT_S * NS_PER_S && Patient(start, started, clock.now, deadline)
    requires Writing(s, polls0, dev.s, dev.polls, slept0, clock.slept, len, count, start) && !dev.s.done
    modifies dev, clock
    ensures Ok(dev.s) && next <= Max(len + 1, 0) && Sending(s, dev.s, data[..next]) && clock.now >= old(clock.now)
    ensures expired || failed ==>
              && (s.aferr ==> next <= 1)
              && PolledWrite(polls0, dev.polls, slept0, clock.slept, len, next, if expired then TimedOut else FifoError)
    ensures expired ==> clock.now >= deadline
    ensures !expired && failed ==> s.aferr
    ensures !expired && !failed ==>
              && done == dev.s.done && start < spin && Patient(spin, started, clock.now, deadline)
              && Writing(s, polls0, dev.s, dev.polls, slept0, clock.slept, len, next, spin)
              && (start >= SPIN_SOFT_LIMIT ==> old(clock.now) < clock.now < deadline)
  {
    hide Sending, Patient, Count, Watched, Rested, RestsLate, Writing, PolledWrite;
    ghost var t, a, slept := dev.s, dev.polls, clock.slept;
    done := false;
    WritingRested(s, polls0, t, a, slept0, slept, len, count, start);
    expired, failed, spin, next := WriteRound(dev, clock, deadline, start, data, count, len, started, slept0, s);
    ghost var u, b := dev.s, dev.polls;
    if expired {
      WritingStops(s, polls0, t, a, u, b, slept0, slept, clock.slept, len, count, next, start, spin, TimedOut);
      return;
    }
    PatienceIsBounded(spin, started, clock.now, PROG_WRITE_TIMEOUT_S);
    if failed {
      RestedRestsLate(slept0, clock.slept, spin);
      RestsLater(slept0, clock.slept, spin, spin + 1);
      WritingStops(s, polls0, t, a, u, b, slept0, slept, clock.slept, len, count, next, start, spin, FifoError);
      return;
    }
    var cs := PollCs(dev, s, data[..next]);
    WritingGoesOn(s, polls0, t, a, u, b, dev.s, dev.polls, slept0, slept, clock.slept, len, count, next,
                  start, spin, if cs.txd then 1 else 0);
    done := cs.done;
  }

  method SmiWriteAwait(dev: Smi, clock: Clock, data: array?<Word>, len: int)
      returns (r: int, ghost ending: Ending, ghost pushed: nat)
    requires Ok(dev.s) && (data != null ==> len < data.Length)
    modifies dev, clock
    ensures Ok(dev.s)
    ensures ending.NoData? <==> data == null
    ensures ending.NoData? ==> r == SMI_ERR_NULL_PTR && dev.s == old(dev.s) && dev.polls == old(dev.polls)
    ensures data != null ==> pushed <= Max(len + 1, 0) <= data.Length
    // The loop is left for DONE: no word is lost or reordered, and the FIFO never overflows.
    ensures ending.Finished? ==>
              r == pushed && dev.s.done && Sending(old(dev.s), dev.s, data[..pushed])
    // Every other way out: the device has received a prefix of what was pushed.
    ensures ending.TimedOut? ==>
              r == SMI_ERR_TIMEOUT && CutShort(old(dev.s), dev.s, data[..pushed]) && !dev.s.done &&
              clock.now >= old(clock.now) + PROG_WRITE_TIMEOUT_S * NS_PER_S
    ensures ending.FifoError? ==>
              r == pushed && CutShort(old(dev.s), dev.s, data[..pushed]) && old(dev.s.aferr) && !dev.s.aferr
    // An AFERR flag left over is noticed in the first iteration.
    ensures data != null && old(dev.s.aferr) ==> pushed <= 1 && (ending.Finished? ==> pushed == 0)
    // However the device behaves, the polls and sleeps are these.
    ensures data != null ==>
              PolledWrite(old(dev.polls), dev.polls, old(clock.slept), clock.slept, len, pushed, ending)
  {
    hide Sending, CutShort, Patient, Count, Watched, Rested, RestsLate, Writing, PolledWrite;
    pushed := 0;
    if data == null {
      return SMI_ERR_NULL_PTR, NoData, 0;
    }
    var count: nat, spin: nat := 0, 0;
    ghost var s0, polls0, slept0 := dev.s, dev.polls, clock.slept;
    var deadline := StartTimeout(clock, PROG_WRITE_TIMEOUT_S);
    ghost var started := clock.now;
    PatientAtFirst(started, deadline);
    ending := Finished;
    SendsNothing(s0);
    assert data[..count] == [];

    var cs := PollCs(dev, s0, data[..count]);
    FirstPoll(s0, polls0, dev.s, dev.polls, slept0, len, if cs.txd then 1 else 0);
    var done := cs.done;
    while !done
      invariant Ok(dev.s) && count <= Max(len + 1, 0) && pushed == count && ending == Finished
      invariant Sending(s0, dev.s, data[..count]) && done == dev.s.done
      invariant Patient(spin, started, clock.now, deadline) && clock.now >= started
      invariant Writing(s0, polls0, dev.s, dev.polls, slept0, clock.slept, len, count, spin)
      decreases SpinsLeft(spin), deadline - clock.now
    {
      var expired, failed;
      expired, failed, done, spin, count :=
        WriteIterate(dev, clock, deadline, spin, data, count, len, started, polls0, slept0, s0);
      pushed := count;
      if expired {
        GiveUp(dev, s0, data[..count]);
        return SMI_ERR_TIMEOUT, TimedOut, count;
      }
      if failed {
        ReportFifoError(dev, s0, data[..count]);
        return count, FifoError, count;
      }
    }
    PatienceIsBounded(spin, started, clock.now, PROG_WRITE_TIMEOUT_S);
    WritingEnds(s0, polls0, dev.s, dev.polls, slept0, clock.slept, len, count, spin);
    r := count;
  }

  lemma WritingRested(s: State, polls0: seq<State>, t: State, polls: seq<State>, slept0: seq<nat>, slept: seq<nat>,
                      len: int, pushed: nat, spin: nat)
    requires Writing(s, polls0, t, polls, slept0, slept, len, pushed, spin)
    ensures Rested(slept0, slept, spin)
  {
  }
}
