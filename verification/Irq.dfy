/**
 smi-irq/smi_irq.c: the interrupt handler and any number of blocking readers share one counter. The reader's wait
 and its decrement are separate steps, so the model is a machine that takes one atomic step of one thread at a time.
 */
module Irq {

  /** The handler has read CS with DONE set (Seen), and then written DONE back to clear it (Acked). */
  datatype Handler = Idle | Seen | Acked

  /** A reader outside `smi_read`, in `wait_event_interruptible`, or past the wait with the decrement to come. */
  datatype Reader = Away | Waiting | Passed

  /**
   `count` is the shared atomic. The last three fields count what has happened: DONE set by the hardware, interrupts
   handled, and decrements made.
   */
  datatype State = State(done: bool, handler: Handler, readers: seq<Reader>, count: int,
                         raised: nat, handled: nat, completed: nat)

  datatype Step =
    | Raise                 // the hardware sets DONE
    | DriverAck             // the user-space driver clears DONE
    | HandlerRead | HandlerAck | HandlerInc
    | Call(i: nat) | Pass(i: nat) | Decrement(i: nat) | Signal(i: nat)

  function Start(n: nat): State {
    State(false, Idle, seq(n, _ => Away), 0, 0, 0, 0)
  }

  predicate IsAt(s: State, i: nat, r: Reader) { i < |s.readers| && s.readers[i] == r }

  predicate Enabled(s: State, step: Step) {
    match step
    case Raise | DriverAck => true
    case HandlerRead => s.handler.Idle?
    case HandlerAck => s.handler.Seen?
    case HandlerInc => s.handler.Acked?
    case Call(i) => IsAt(s, i, Away)
    case Pass(i) => IsAt(s, i, Waiting) && s.count > 0
    case Decrement(i) => IsAt(s, i, Passed)
    case Signal(i) => IsAt(s, i, Waiting)
  }

  function Next(s: State, step: Step): State
    requires Enabled(s, step)
  {
    match step
    case Raise => s.(done := true, raised := s.raised + 1)
    case DriverAck => s.(done := false)
    case HandlerRead => if s.done then s.(handler := Seen) else s
    case HandlerAck => s.(done := false, handler := Acked)
    case HandlerInc => s.(handler := Idle, count := s.count + 1, handled := s.handled + 1)
    case Call(i) => s.(readers := s.readers[i := Waiting])
    case Pass(i) => s.(readers := s.readers[i := Passed])
    case Decrement(i) => s.(readers := s.readers[i := Away], count := s.count - 1, completed := s.completed + 1)
    case Signal(i) => s.(readers := s.readers[i := Away])
  }

  /** A run from `s`: every step enabled where it is taken. */
  predicate Allowed(s: State, run: seq<Step>)
    decreases |run|
  {
    run == [] || (Enabled(s, run[0]) && Allowed(Next(s, run[0]), run[1..]))
  }

  function After(s: State, run: seq<Step>): State
    requires Allowed(s, run)
    decreases |run|
  {
    if run == [] then s else After(Next(s, run[0]), run[1..])
  }

  function Past(readers: seq<Reader>): nat {
    if readers == [] then 0 else Past(readers[..|readers| - 1]) + if readers[|readers| - 1].Passed? then 1 else 0
  }

  lemma {:induction false} PastBounds(readers: seq<Reader>)
    ensures Past(readers) <= |readers|
    ensures Past(readers) < |readers| || forall i | 0 <= i < |readers| :: readers[i].Passed?
  {
    if readers != [] {
      PastBounds(readers[..|readers| - 1]);
    }
  }

  lemma {:induction false} PastUpdate(readers: seq<Reader>, i: nat, r: Reader)
    requires i < |readers|
    ensures Past(readers[i := r]) + (if readers[i].Passed? then 1 else 0) == Past(readers) + if r.Passed? then 1 else 0
  {
    var n := |readers| - 1;
    if i == n {
      assert readers[i := r][..n] == readers[..n];
    } else {
      PastUpdate(readers[..n], i, r);
      assert readers[i := r][..n] == readers[..n][i := r];
    }
  }

  /**
   What every step keeps: the counter is the interrupts handled less the decrements made; the readers past the wait
   can be ahead of it, but never all of them by more than the reader that saw the last event allows; and every
   handled interrupt was raised.
   */
  predicate Inv(s: State) {
    && s.count == s.handled - s.completed
    && s.count - Past(s.readers) >= 1 - |s.readers|
    && s.raised >= s.handled + (if s.handler.Idle? then 0 else 1) + (if s.done && !s.handler.Seen? then 1 else 0)
  }

  lemma StartInv(n: nat)
    requires n > 0
    ensures Inv(Start(n))
  {
    AllAway(n);
  }

  lemma {:induction false} AllAway(n: nat)
    ensures Past(Start(n).readers) == 0
  {
    if n > 0 {
      AllAway(n - 1);
      assert Start(n).readers[..n - 1] == Start(n - 1).readers;
    }
  }

  lemma NextInv(s: State, step: Step)
    requires Inv(s) && Enabled(s, step)
    ensures Inv(Next(s, step)) && |Next(s, step).readers| == |s.readers|
  {
    match step
    case Call(i) => PastUpdate(s.readers, i, Waiting);
    case Pass(i) =>
      PastUpdate(s.readers, i, Passed);
      PastBounds(s.readers[i := Passed]);
    case Decrement(i) => PastUpdate(s.readers, i, Away);
    case Signal(i) => PastUpdate(s.readers, i, Away);
    case _ =>
  }

  lemma {:induction false} RunInv(s: State, run: seq<Step>)
    requires Inv(s) && Allowed(s, run)
    ensures Inv(After(s, run)) && |After(s, run).readers| == |s.readers|
    decreases |run|
  {
    if run != [] {
      NextInv(s, run[0]);
      RunInv(Next(s, run[0]), run[1..]);
    }
  }

  /**
   Every run of `n` readers: the counter accounts for every handled interrupt and completed read, and neither the
   counter nor what is left of it after the readers already past the wait goes below 1 - n.
   */
  lemma EveryRun(n: nat, run: seq<Step>)
    requires n > 0 && Allowed(Start(n), run)
    ensures var s := After(Start(n), run);
            && s.count == s.handled - s.completed && s.handled <= s.raised
            && s.count - Past(s.readers) >= 1 - n && s.count >= 1 - n
            && s.completed <= s.handled + n - 1
  {
    StartInv(n);
    RunInv(Start(n), run);
  }

  /**
   On every run a poll reports readable exactly when there is a handled interrupt that no completed read accounts for,
   which is also exactly when a waiting reader can pass.
   */
  lemma PollIsExact(n: nat, run: seq<Step>)
    requires n > 0 && Allowed(Start(n), run)
    ensures var t := After(Start(n), run);
            && (PollsReadable(t) <==> t.handled > t.completed)
            && (forall i | 0 <= i < |t.readers| && t.readers[i].Waiting? :: PollsReadable(t) <==> Enabled(t, Pass(i)))
  {
    EveryRun(n, run);
  }

  /**
   The handler and the driver both clear DONE. If the driver is first, the handler finds nothing to count: the event
   never reaches a reader.
   */
  lemma EventCanBeLost(n: nat)
    ensures var run := [Raise, DriverAck, HandlerRead];
            && Allowed(Start(n), run)
            && var t := After(Start(n), run);
               t.raised == 1 && t.handled == 0 && t.count == 0 && !t.done && t.handler.Idle?
  {
    var a := Next(Start(n), Raise);
    var b := Next(a, DriverAck);
    assert [HandlerRead][1..] == [];
    assert [DriverAck, HandlerRead][1..] == [HandlerRead];
    assert [Raise, DriverAck, HandlerRead][1..] == [DriverAck, HandlerRead];
    assert Allowed(b, [HandlerRead]) && Allowed(a, [DriverAck, HandlerRead]);
  }

  /** A read that is interrupted before its wait is over leaves no trace. */
  lemma ReadGivenUp(s: State, i: nat)
    requires IsAt(s, i, Away)
    ensures Allowed(s, [Call(i), Signal(i)]) && After(s, [Call(i), Signal(i)]) == s
  {
    var t := Next(s, Call(i));
    assert t.readers[i := Away] == s.readers;
    OneStep(s, Call(i));
    OneStep(t, Signal(i));
    RunOn(s, [Call(i)], [Signal(i)]);
    assert [Call(i)] + [Signal(i)] == [Call(i), Signal(i)];
  }

  lemma OneStep(s: State, step: Step)
    requires Enabled(s, step)
    ensures Allowed(s, [step]) && After(s, [step]) == Next(s, step)
  {
    assert [step][1..] == [];
    assert Allowed(Next(s, step), []);
  }

  // ----- The bound is reached: n readers pass on one event -----

  /** All readers make the same move, one after the other. */
  datatype Phase = Calls | Passes | Decrements {
    function StepOf(i: nat): Step {
      match this case Calls => Call(i) case Passes => Pass(i) case Decrements => Decrement(i)
    }
    function From(): Reader { match this case Calls => Away case Passes => Waiting case Decrements => Passed }
    function To(): Reader { match this case Calls => Waiting case Passes => Passed case Decrements => Away }
    function Cost(): nat { if this == Decrements then 1 else 0 }
  }

  function Moves(p: Phase, k: nat): seq<Step> {
    if k == 0 then [] else Moves(p, k - 1) + [p.StepOf(k - 1)]
  }

  lemma {:induction false} RunOn(s: State, a: seq<Step>, b: seq<Step>)
    requires Allowed(s, a) && Allowed(After(s, a), b)
    ensures Allowed(s, a + b) && After(s, a + b) == After(After(s, a), b)
    decreases |a|
  {
    if a == [] {
      assert a + b == b;
    } else {
      assert (a + b)[1..] == a[1..] + b;
      RunOn(Next(s, a[0]), a[1..], b);
    }
  }

  function Row(n: nat, k: nat, done: Reader, todo: Reader): seq<Reader>
    requires k <= n
  {
    seq(n, i => if i < k then done else todo)
  }

  lemma {:induction false} AllMove(s: State, p: Phase, n: nat, k: nat)
    requires k <= n && s.readers == Row(n, 0, p.To(), p.From()) && (p == Passes ==> s.count > 0)
    ensures Allowed(s, Moves(p, k))
    ensures After(s, Moves(p, k)) ==
            s.(readers := Row(n, k, p.To(), p.From()),
               count := s.count - p.Cost() * k, completed := s.completed + p.Cost() * k)
  {
    if k > 0 {
      AllMove(s, p, n, k - 1);
      var t := After(s, Moves(p, k - 1));
      assert Row(n, k - 1, p.To(), p.From())[k - 1 := p.To()] == Row(n, k, p.To(), p.From());
      var last := [p.StepOf(k - 1)];
      assert Enabled(t, last[0]) && last[1..] == [];
      RunOn(s, Moves(p, k - 1), last);
    }
  }

  /** The four steps from the hardware setting DONE to the counter going up. */
  lemma OneEvent(s: State)
    requires s.handler == Idle
    ensures var event := [Raise, HandlerRead, HandlerAck, HandlerInc];
            Allowed(s, event) &&
            After(s, event) == s.(done := false, count := s.count + 1, raised := s.raised + 1, handled := s.handled + 1)
  {
    var a := Next(s, Raise);
    var b := Next(a, HandlerRead);
    var c := Next(b, HandlerAck);
    assert [HandlerAck, HandlerInc][1..] == [HandlerInc];
    assert [HandlerRead, HandlerAck, HandlerInc][1..] == [HandlerAck, HandlerInc];
    assert [Raise, HandlerRead, HandlerAck, HandlerInc][1..] == [HandlerRead, HandlerAck, HandlerInc];
    assert [HandlerInc][1..] == [];
    assert Allowed(c, [HandlerInc]) && Allowed(b, [HandlerAck, HandlerInc]);
    assert Allowed(a, [HandlerRead, HandlerAck, HandlerInc]);
  }

  /** One event, `n` readers: all of them pass the wait before the first decrements, and the counter ends at 1 - n. */
  lemma BoundIsReached(n: nat)
    requires n > 0
    ensures exists run :: Allowed(Start(n), run) && After(Start(n), run).count == 1 - n
  {
    hide Allowed;
    var s0, event := Start(n), [Raise, HandlerRead, HandlerAck, HandlerInc];
    OneEvent(s0);
    var s1 := After(s0, event);
    assert s1.readers == Row(n, 0, Waiting, Away);
    AllMove(s1, Calls, n, n);
    var s2 := After(s1, Moves(Calls, n));
    assert s2.readers == Row(n, 0, Passed, Waiting);
    AllMove(s2, Passes, n, n);
    var s3 := After(s2, Moves(Passes, n));
    assert s3.readers == Row(n, 0, Away, Passed);
    AllMove(s3, Decrements, n, n);
    RunOn(s2, Moves(Passes, n), Moves(Decrements, n));
    RunOn(s1, Moves(Calls, n), Moves(Passes, n) + Moves(Decrements, n));
    RunOn(s0, event, Moves(Calls, n) + (Moves(Passes, n) + Moves(Decrements, n)));
  }

  // ----- One reader -----

  /** What `smi_poll` reports. */
  predicate PollsReadable(s: State) { s.count > 0 }

  /**
   With a single reader the counter is never negative, and a positive poll is a promise: as long as the reader has
   not taken its event, no step of anyone else withdraws it, so its read never blocks.
   */
  lemma {:induction false} PollIsAPromise(s: State, run: seq<Step>)
    requires Inv(s) && |s.readers| == 1 && !s.readers[0].Passed? && PollsReadable(s) && Allowed(s, run)
    requires forall step | step in run :: !step.Pass?
    ensures var t := After(s, run);
            && |t.readers| == 1 && PollsReadable(t) && !t.readers[0].Passed?
            && (t.readers[0].Waiting? ==> Enabled(t, Pass(0)))
    decreases |run|
  {
    if run != [] {
      assert run[0] in run;
      NextInv(s, run[0]);
      PollIsAPromise(Next(s, run[0]), run[1..]);
    }
  }

  /** The counter can never go negative exactly when there is at most one reader. */
  lemma NeverNegativeIff(n: nat)
    requires n > 0
    ensures (forall run | Allowed(Start(n), run) :: After(Start(n), run).count >= 0) <==> n == 1
  {
    if n == 1 {
      forall run | Allowed(Start(n), run)
        ensures After(Start(n), run).count >= 0
      {
        EveryRun(n, run);
      }
    } else {
      BoundIsReached(n);
    }
  }
}
