/**
 Direct mode of the SMI: one transfer per START, reported by DONE, against an external memory of 64 addresses.
 `smi_read_await_direct` and `smi_write_await_direct` of src/smi.c.
 */
module Direct {
  import opened Words
  import opened Timeout

  const ADDRESSES: nat := 64
  const DIRECT_READ_TIMEOUT_S: nat := 2
  const PROG_WRITE_TIMEOUT_S: nat := 50

  function Low18(w: Word): Word { w & 0x3FFFF }
  function Low8(w: Word): Word { w & 0xFF }

  /** `Low18` is what is left of a word without its upper 14 bits, and `Low8` without its upper 24. */
  lemma Low18Bits(w: Word)
    ensures Low18(w) < 0x40000 && w == ((w >> 18) << 18) | Low18(w)
  {
  }

  lemma Low8Bits(w: Word)
    ensures Low8(w) < 0x100 && w == ((w >> 8) << 8) | Low8(w)
  {
  }

  /** The DCS register as read or written back; START reads as 0. */
  datatype Dcs = Dcs(start: bool, done: bool, write: bool)
  datatype DcsField = Start | Done | Write

  function SetField(c: Dcs, f: DcsField, v: bool): Dcs {
    match f
    case Start => c.(start := v)
    case Done => c.(done := v)
    case Write => c.(write := v)
  }

  datatype Transfer = Read(addr: nat) | Wrote(addr: nat, value: Word)

  /**
   The registers DCS, DA and DD, the transfer in flight, the external memory, the transfers completed so far, and
   how many STARTs were lost because a transfer was in flight.
   */
  datatype State = State(
    done: bool, write: bool, addr: nat, dd: Word,
    inFlight: bool, current: Transfer,
    mem: seq<Word>, log: seq<Transfer>, lost: nat)

  ghost predicate Ok(s: State) {
    |s.mem| == ADDRESSES && s.addr < ADDRESSES && s.current.addr < ADDRESSES
  }

  function ReadDcs(s: State): Dcs { Dcs(false, s.done, s.write) }

  /** Writing 1 to DONE clears it; START begins a transfer unless one is in flight, when it does nothing. */
  function WriteDcs(s: State, w: Dcs): State {
    var t := s.(done := s.done && !w.done, write := w.write);
    if !w.start then t
    else if s.inFlight then t.(lost := s.lost + 1)
    else t.(inFlight := true, current := if w.write then Wrote(s.addr, s.dd) else Read(s.addr))
  }

  /** The transfer in flight reaches the external memory and DONE is set. */
  function Completed(s: State): State
    requires Ok(s)
  {
    var t := s.(done := true, inFlight := false, log := s.log + [s.current]);
    match s.current
    case Read(a) => t.(dd := s.mem[a])
    case Wrote(a, v) => t.(mem := s.mem[a := v])
  }

  ghost predicate Runs(s: State, t: State)
    requires Ok(s)
  {
    t == s || (s.inFlight && t == Completed(s))
  }

  /** How long a transfer takes: it has completed after at most `n` looks at the port in vain, or never does. */
  datatype Finish = Within(n: nat) | Never

  /** The port and the device behind it; `finish(k)` says when, if ever, the device completes the k-th transfer. */
  class Port {
    var s: State
    const finish: nat -> Finish
    var age: nat   // looks at the transfer in flight
    ghost var looks: nat   // polls of DONE made so far
    ghost var seen: nat    // those that found it set

    constructor (s: State, finish: nat -> Finish)
      requires Ok(s)
      ensures this.s == s && this.finish == finish && looks == 0 && seen == 0
    {
      looks, seen := 0, 0;
      this.s := s;
      this.finish := finish;
    }

    /** The port between two register accesses: a transfer in flight may complete. */
    method Advance()
      requires Ok(s)
      modifies this`s, this`age
      ensures Ok(s) && Runs(old(s), s)
      ensures old(s.inFlight) && finish(|old(s).log|).Never? ==> s == old(s)
      ensures old(s.inFlight) && s.inFlight && finish(|old(s).log|).Within? ==>
                age == old(age) + 1 <= finish(|old(s).log|).n
    {
      if s.inFlight {
        match finish(|s.log|)
        case Never =>
        case Within(n) =>
          var early: bool := *;
          if early || age >= n {
            s := Completed(s);
          } else {
            age := age + 1;
          }
      }
    }

    /** A poll of DONE. */
    method PollDone() returns (done: bool)
      requires Ok(s)
      modifies this
      ensures Ok(s) && Runs(old(s), s) && done == s.done && looks == old(looks) + 1
      ensures seen == old(seen) + if done then 1 else 0
      ensures old(s.inFlight) && finish(|old(s).log|).Never? ==> s == old(s)
      ensures old(s.inFlight) && s.inFlight && finish(|old(s).log|).Within? ==>
                age == old(age) + 1 <= finish(|old(s).log|).n
    {
      Advance();
      looks := looks + 1;
      done := ReadDcs(s).done;
      seen := seen + if done then 1 else 0;
    }

    /** A bitfield assignment to DCS on an idle port: read, change one field, write the whole word back. */
    method SetIdleDcs(f: DcsField, v: bool)
      requires Ok(s) && !s.inFlight
      modifies this`s, this`age
      ensures s == WriteDcs(old(s), SetField(ReadDcs(old(s)), f, v)) && Ok(s) && age == 0
    {
      Advance();
      var c := SetField(ReadDcs(s), f, v);
      Advance();
      s := WriteDcs(s, c);
      age := 0;
    }

    /** Acknowledging DONE while a transfer may be in flight. */
    method AcknowledgeDone()
      requires Ok(s)
      modifies this`s, this`age
      ensures Ok(s) && exists t :: Runs(old(s), t) && s == t.(done := false)
    {
      ghost var t := s;
      Advance();
      var c := ReadDcs(s).(done := true);
      Advance();
      assert Runs(t, s);
      s := WriteDcs(s, c);
    }

    /** DA.addr holds 6 bits. */
    method SetAddress(a: nat)
      requires Ok(s) && !s.inFlight
      modifies this`s
      ensures s == old(s).(addr := a % ADDRESSES) && Ok(s)
    {
      s := s.(addr := a % ADDRESSES);
    }

    /** DD holds 18 bits. */
    method WriteDd(w: Word)
      requires Ok(s) && !s.inFlight
      modifies this`s
      ensures s == old(s).(dd := Low18(w)) && Ok(s)
    {
      s := s.(dd := Low18(w));
    }
  }

  // ----- Addresses -----

  /** Only the sign of `increment` counts: the address moves by one. */
  function Step(increment: int): int { if increment > 0 then 1 else if increment < 0 then -1 else 0 }

  /** The `uint8_t` address after `i` words, and the 6 bits of it that reach the bus. */
  function Addr8(addr: nat, increment: int, i: nat): nat { (addr + Step(increment) * i) % 256 }
  function AddrAt(addr: nat, increment: int, i: nat): (a: nat)
    ensures a < ADDRESSES
  {
    Addr8(addr, increment, i) % ADDRESSES
  }

  /** The address for the next word; DA is written only if it moves. */
  method MoveOn(port: Port, a: nat, increment: int) returns (b: nat)
    requires Ok(port.s) && !port.s.inFlight
    modifies port`s
    ensures b == (a + Step(increment)) % 256 && Ok(port.s)
    ensures port.s == if increment == 0 then old(port.s) else old(port.s).(addr := b % ADDRESSES)
  {
    b := (a + Step(increment)) % 256;
    if increment != 0 {
      port.SetAddress(b);
    }
  }

  lemma NextAddr8(addr: nat, increment: int, i: nat)
    ensures (Addr8(addr, increment, i) + Step(increment)) % 256 == Addr8(addr, increment, i + 1)
    ensures increment == 0 ==> AddrAt(addr, increment, i + 1) == AddrAt(addr, increment, i)
  {
  }

  lemma ModuloByteThen64(x: int)
    ensures x % 256 % ADDRESSES == x % ADDRESSES
  {
    var q, r := x / 256, x % 256;
    var k, t := r / 64, r % 64;
    assert x == 64 * (4 * q + k) + t;
  }

  /**
   The `uint8_t` wrap-around never shows: the bus sees the plain address modulo 64, upwards for a positive increment,
   downwards for a negative one.
   */
  lemma AddressesModulo64(addr: nat, increment: int, i: nat)
    ensures AddrAt(addr, increment, i) == (addr + Step(increment) * i) % ADDRESSES
    ensures AddrAt(addr, increment, i) ==
            (if increment > 0 then addr + i else if increment < 0 then addr - i else addr) % ADDRESSES
  {
    ModuloByteThen64(addr + Step(increment) * i);
    assert increment > 0 ==> Step(increment) * i == i;
    assert increment < 0 ==> Step(increment) * i + i == 0;
  }

  // ----- What the workers do to the device -----

  function ReadLog(addr: nat, increment: int, n: nat): seq<Transfer> {
    seq(n, i requires i >= 0 => Read(AddrAt(addr, increment, i)))
  }

  /** The bytes that reading `n` words returns. */
  function ReadBack(mem: seq<Word>, addr: nat, increment: int, n: nat): seq<Word>
    requires |mem| == ADDRESSES
  {
    seq(n, i requires i >= 0 => Low8(mem[AddrAt(addr, increment, i)]))
  }

  function WriteLog(addr: nat, increment: int, data: seq<Word>): seq<Transfer> {
    seq(|data|, i requires 0 <= i < |data| => Wrote(AddrAt(addr, increment, i), Low18(data[i])))
  }

  /** The memory after the words have been written one after another. */
  function Written(mem: seq<Word>, addr: nat, increment: int, data: seq<Word>): (m: seq<Word>)
    requires |mem| == ADDRESSES
    ensures |m| == ADDRESSES
  {
    if data == [] then mem
    else
      var n := |data| - 1;
      Written(mem, addr, increment, data[..n])[AddrAt(addr, increment, n) := Low18(data[n])]
  }

  /** A transfer has been started from the idle state `s`: DONE is clear until this very transfer completes. */
  function StartedFrom(s: State): State {
    WriteDcs(s, ReadDcs(s).(start := true))
  }

  ghost predicate Waiting(s: State, t: State)
    requires Ok(s) && !s.inFlight
  {
    t == StartedFrom(s) || t == Completed(StartedFrom(s))
  }

  lemma StartIsNotLost(s: State)
    requires Ok(s) && !s.inFlight
    ensures var t := StartedFrom(s);
            t == s.(done := false, inFlight := true, current := if s.write then Wrote(s.addr, s.dd) else Read(s.addr))
  {
  }

  /** A START during a transfer is lost: the transfer in flight stays as it is. */
  lemma StartIsLostInFlight(s: State)
    requires Ok(s) && s.inFlight
    ensures var t := StartedFrom(s); t == s.(done := false, lost := s.lost + 1)
  {
  }

  lemma WaitingGoesOn(s: State, t: State, u: State)
    requires Ok(s) && !s.inFlight && Waiting(s, t) && Ok(t) && Runs(t, u)
    ensures Waiting(s, u) && (u.done <==> u == Completed(StartedFrom(s)))
  {
  }

  // ----- smi_read_await_direct -----

  /** The inner loop of the read worker: polls DONE, with a spin counter that runs on from word to word. */
  method AwaitRead(port: Port, clock: Clock, deadline: int, start: nat, ghost started: int, ghost s: State)
      returns (expired: bool, spin: nat)
    requires Ok(s) && !s.inFlight && Ok(port.s) && Waiting(s, port.s)
    requires deadline == started + DIRECT_READ_TIMEOUT_S * NS_PER_S
    requires Patient(start, started, clock.now, deadline)
    modifies port, clock
    ensures Ok(port.s) && Waiting(s, port.s) && clock.now >= old(clock.now)
    ensures spin >= start && port.looks == old(port.looks) + 1 + spin - start
    ensures port.seen == old(port.seen) + if expired then 0 else 1
    ensures expired ==> spin <= SPIN_SOFT_LIMIT + SleepsIn(DIRECT_READ_TIMEOUT_S)
    ensures expired ==> clock.now >= deadline && spin >= SPIN_YIELD_LIMIT
    ensures !expired ==> port.s == Completed(StartedFrom(s)) && Patient(spin, started, clock.now, deadline)
  {
    hide Patient, Completed;
    spin, expired := start, false;
    ghost var t := port.s;
    var done := port.PollDone();
    WaitingGoesOn(s, t, port.s);
    while !done
      invariant Ok(port.s) && Waiting(s, port.s) && clock.now >= old(clock.now)
      invariant done == port.s.done && (done <==> port.s == Completed(StartedFrom(s)))
      invariant Patient(spin, started, clock.now, deadline)
      invariant port.seen == old(port.seen) + if done then 1 else 0
      invariant spin >= start && port.looks == old(port.looks) + 1 + spin - start
      decreases SpinsLeft(spin), deadline - clock.now
    {
      PatienceIsBounded(spin, started, clock.now, DIRECT_READ_TIMEOUT_S);
      expired := PatientWait(clock, deadline, spin, started);
      if expired {
        return;
      }
      spin := spin + 1;
      t := port.s;
      done := port.PollDone();
      WaitingGoesOn(s, t, port.s);
    }
  }

  /** One word: START, wait for its DONE, take the data, acknowledge. */
  method ReadWord(port: Port, clock: Clock, deadline: int, start: nat, ghost started: int)
      returns (expired: bool, spin: nat, w: Word)
    requires Ok(port.s) && !port.s.inFlight && !port.s.write
    requires deadline == started + DIRECT_READ_TIMEOUT_S * NS_PER_S
    requires Patient(start, started, clock.now, deadline)
    modifies port, clock
    ensures Ok(port.s) && clock.now >= old(clock.now) && !port.s.done && SameMemory(old(port.s), port.s)
    ensures spin >= start && port.looks == old(port.looks) + 1 + spin - start
    ensures port.seen == old(port.seen) + if expired then 0 else 1
    ensures expired ==> spin <= SPIN_SOFT_LIMIT + SleepsIn(DIRECT_READ_TIMEOUT_S)
    ensures expired ==> clock.now >= deadline && spin >= SPIN_YIELD_LIMIT
    ensures expired ==> port.s.log == old(port.s.log) || port.s.log == old(port.s.log) + [Read(old(port.s.addr))]
    ensures !expired ==>
              && w == Low8(old(port.s.mem)[old(port.s.addr)]) && Patient(spin, started, clock.now, deadline)
              && !port.s.inFlight && port.s.log == old(port.s.log) + [Read(old(port.s.addr))]
  {
    hide Patient;
    ghost var s := port.s;
    StartIsNotLost(s);
    port.SetIdleDcs(Start, true);
    expired, spin := AwaitRead(port, clock, deadline, start, started, s);
    if expired {
      port.AcknowledgeDone();
      return expired, spin, 0;
    }
    w := Low8(port.s.dd);
    port.SetIdleDcs(Done, true);
  }

  ghost predicate SameMemory(s: State, t: State) {
    t.mem == s.mem && t.lost == s.lost && t.write == s.write && t.addr == s.addr
  }

  /** Since `s`, one transfer for each of `words` has been made, and `words` is what the memory holds there. */
  ghost predicate AllRead(s: State, t: State, addr: nat, increment: int, words: seq<Word>)
    requires Ok(s)
  {
    && t.mem == s.mem && t.lost == s.lost
    && t.log == s.log + ReadLog(addr, increment, |words|) && words == ReadBack(s.mem, addr, increment, |words|)
  }

  /** As `AllRead`, with one transfer more, whose word was not taken. */
  ghost predicate OneReadMore(s: State, t: State, addr: nat, increment: int, words: seq<Word>)
    requires Ok(s)
  {
    && t.mem == s.mem && t.lost == s.lost
    && t.log == s.log + ReadLog(addr, increment, |words| + 1) && words == ReadBack(s.mem, addr, increment, |words|)
  }

  lemma NothingReadYet(s: State, t: State, addr: nat, increment: int)
    requires Ok(s) && t.mem == s.mem && t.lost == s.lost && t.log == s.log && addr < 256
    ensures AllRead(s, t, addr, increment, []) && Addr8(addr, increment, 0) == addr
  {
  }

  lemma StillRead(s: State, t: State, u: State, addr: nat, increment: int, words: seq<Word>)
    requires Ok(s) && AllRead(s, t, addr, increment, words) && u.mem == t.mem && u.lost == t.lost && u.log == t.log
    ensures AllRead(s, u, addr, increment, words)
  {
  }

  lemma OneMoreRead(s: State, t: State, u: State, addr: nat, increment: int, words: seq<Word>)
    requires Ok(s) && Ok(t) && AllRead(s, t, addr, increment, words) && t.addr == AddrAt(addr, increment, |words|)
    requires u.mem == t.mem && u.lost == t.lost && u.log == t.log + [Read(t.addr)]
    ensures OneReadMore(s, u, addr, increment, words)
    ensures AllRead(s, u, addr, increment, words + [Low8(t.mem[t.addr])])
  {
    hide Low8, AddrAt;
    assert ReadLog(addr, increment, |words| + 1) == ReadLog(addr, increment, |words|) + [Read(t.addr)];
  }

  /** The i-th word of a read since `s0`, and the address for the one after it. */
  method ReadNext(port: Port, clock: Clock, deadline: int, start: nat, a: nat, addr: nat, increment: int,
                  ghost started: int, ghost s0: State, ghost words: seq<Word>)
      returns (expired: bool, spin: nat, w: Word, b: nat)
    requires Ok(s0) && Ok(port.s) && !port.s.inFlight && !port.s.done && !port.s.write
    requires a == Addr8(addr, increment, |words|) && port.s.addr == AddrAt(addr, increment, |words|)
    requires AllRead(s0, port.s, addr, increment, words)
    requires deadline == started + DIRECT_READ_TIMEOUT_S * NS_PER_S && Patient(start, started, clock.now, deadline)
    modifies port, clock
    ensures Ok(port.s) && clock.now >= old(clock.now) && !port.s.done && !port.s.write
    ensures spin >= start && port.looks == old(port.looks) + 1 + spin - start
    ensures port.seen == old(port.seen) + if expired then 0 else 1
    ensures expired ==>
              && SPIN_YIELD_LIMIT <= spin <= SPIN_SOFT_LIMIT + SleepsIn(DIRECT_READ_TIMEOUT_S)
              && clock.now >= deadline
              && (AllRead(s0, port.s, addr, increment, words) || OneReadMore(s0, port.s, addr, increment, words))
    ensures !expired ==>
              && !port.s.inFlight && Patient(spin, started, clock.now, deadline)
              && AllRead(s0, port.s, addr, increment, words + [w])
              && b == Addr8(addr, increment, |words| + 1) && port.s.addr == AddrAt(addr, increment, |words| + 1)
  {
    hide AllRead, OneReadMore, Addr8, Low8, Step, Patient;
    ghost var s := port.s;
    b := a;
    NextAddr8(addr, increment, |words|);
    expired, spin, w := ReadWord(port, clock, deadline, start, started);
    if expired {
      if port.s.log == s.log {
        StillRead(s0, s, port.s, addr, increment, words);
      } else {
        OneMoreRead(s0, s, port.s, addr, increment, words);
      }
      return;
    }
    OneMoreRead(s0, s, port.s, addr, increment, words);
    ghost var u := port.s;
    b := MoveOn(port, a, increment);
    StillRead(s0, u, port.s, addr, increment, words + [w]);
  }

  /**
   One transfer per word, at the addresses that follow from `addr` and the sign of `increment`; DONE left over from
   earlier does not matter. On a timeout the words stored are right and at most one transfer more has been made.
   */
  method SmiReadAwaitDirect(port: Port, clock: Clock, ret: array?<Word>, addr: nat, len: int, increment: int)
      returns (r: int, ghost got: nat)
    requires Ok(port.s) && !port.s.inFlight && addr < 256 && (ret != null ==> len <= ret.Length)
    modifies port, clock, ret
    ensures Ok(port.s) && (ret == null ==> r == -1 && port.s == old(port.s))
    ensures ret != null ==>
              && got <= Max(len, 0) && got <= ret.Length
              && (forall i | got <= i < ret.Length :: ret[i] == old(ret[i]))
    ensures ret != null && got == Max(len, 0) ==>
              && r == got && !port.s.inFlight && !port.s.done && !port.s.write
              && AllRead(old(port.s), port.s, addr, increment, ret[..got])
    ensures ret != null && got < len ==>
              && r == SMI_ERR_TIMEOUT && clock.now >= old(clock.now) + DIRECT_READ_TIMEOUT_S * NS_PER_S && !port.s.done
              && (AllRead(old(port.s), port.s, addr, increment, ret[..got]) ||
                  OneReadMore(old(port.s), port.s, addr, increment, ret[..got]))
              && port.looks > old(port.looks) + SPIN_YIELD_LIMIT
    // DONE has been seen exactly once for every word: the first sight of it ends the wait.
    ensures ret != null ==> port.seen == old(port.seen) + got
    ensures ret != null && got == Max(len, 0) ==> port.s.addr == AddrAt(addr, increment, got)
    // However the device behaves, the loop ends after this many polls of DONE.
    ensures port.looks <= old(port.looks) + Max(len, 0) + SPIN_SOFT_LIMIT + SleepsIn(DIRECT_READ_TIMEOUT_S)
  {
    hide AllRead, OneReadMore, Addr8, Low8, Step, Patient;
    got := 0;
    if ret == null {
      return -1, 0;
    }
    var count: nat, spin: nat, a := 0, 0, addr;
    ghost var s0 := port.s;
    port.SetIdleDcs(Write, false);
    port.SetAddress(a);
    NothingReadYet(s0, port.s, addr, increment);
    var deadline := StartTimeout(clock, DIRECT_READ_TIMEOUT_S);
    ghost var started := clock.now;
    PatientAtFirst(started, deadline);
    assert ret[..count] == [];

    while count < len
      invariant 0 <= count <= Max(len, 0) && got == count && Ok(port.s)
      invariant !port.s.inFlight && !port.s.done && !port.s.write
      invariant a == Addr8(addr, increment, count) && port.s.addr == AddrAt(addr, increment, count)
      invariant AllRead(s0, port.s, addr, increment, ret[..count])
      invariant forall i | count <= i < ret.Length :: ret[i] == old(ret[i])
      invariant Patient(spin, started, clock.now, deadline) && port.looks == old(port.looks) + count + spin
      invariant port.seen == old(port.seen) + count
    {
      label Head:
      var expired, w;
      expired, spin, w, a := ReadNext(port, clock, deadline, spin, a, addr, increment, started, s0, ret[..count]);
      if expired {
        return SMI_ERR_TIMEOUT, count;
      }
      ret[count] := w;
      assert ret[..count + 1] == old@Head(ret[..count]) + [w];
      count := count + 1;
      got := count;
    }
    PatienceIsBounded(spin, started, clock.now, DIRECT_READ_TIMEOUT_S);
    r := count;
  }

  // ----- smi_write_await_direct -----

  /**
   How far a run of the write worker is followed: to its end, or through at most `n` polls of each word. A limit
   serves to speak of runs that have no end.
   */
  datatype Limit = ToTheEnd | Polls(n: nat)

  /**
   Whether the inner loop of the write worker ends. The spin counter stands still in it, so for the first 192 words
   it never looks at the deadline; up to 512 it looks without sleeping, and needs a clock that moves by itself.
   */
  predicate Ends(f: Finish, spin: nat, grain: nat) {
    f.Within? || spin >= SPIN_SOFT_LIMIT || (spin >= SPIN_YIELD_LIMIT && grain > 0)
  }

  /** So many polls are enough for the inner loop to end, with `left` until the deadline. */
  predicate Enough(n: nat, f: Finish, spin: nat, grain: nat, left: int) {
    (f.Within? && f.n <= n) || (spin >= SPIN_YIELD_LIMIT && n > 0 && n * grain >= left)
  }

  ghost function TimeLeft(now: int, deadline: int): nat { if now < deadline then deadline - now else 0 }

  ghost function LooksLeft(f: Finish, age: nat): nat {
    match f case Within(n) => if age <= n then n + 1 - age else 0 case Never => 0
  }

  /** After `polls` polls of one word, in vain. */
  ghost predicate Polled(polls: nat, spin: nat, grain: nat, started: int, now: int, deadline: int) {
    && (spin < SPIN_YIELD_LIMIT ==> now == started)
    && (spin >= SPIN_YIELD_LIMIT ==> polls * grain <= now - started && (polls > 0 ==> now < deadline))
  }

  lemma PolledAtFirst(spin: nat, grain: nat, started: int, deadline: int)
    ensures Polled(0, spin, grain, started, started, deadline)
  {
  }

  /** The wait after one of these polls. */
  method StuckWait(clock: Clock, deadline: int, spin: nat, ghost polls: nat, ghost started: int)
      returns (expired: bool)
    requires Polled(polls, spin, clock.grain, started, clock.now, deadline)
    modifies clock
    ensures clock.now >= old(clock.now)
    ensures expired ==> clock.now >= deadline && spin >= SPIN_YIELD_LIMIT
    ensures spin < SPIN_YIELD_LIMIT ==> clock.now == old(clock.now) && clock.readings == old(clock.readings)
    ensures !expired ==> Polled(polls + 1, spin, clock.grain, started, clock.now, deadline)
    ensures !expired && Ends(Never, spin, clock.grain) ==> old(clock.now) < clock.now < deadline
  {
    expired := TimeoutApply(clock, deadline, SpinTier(spin));
  }

  /** `polls` in vain are no more than any number that is enough. */
  ghost predicate AtMost(polls: nat, f: Finish, spin: nat, grain: nat, left: int) {
    forall n: nat | Enough(n, f, spin, grain, left) :: polls <= n
  }

  lemma NoPollsAtMost(f: Finish, spin: nat, grain: nat, left: int)
    ensures AtMost(0, f, spin, grain, left)
  {
  }

  lemma OnePollMore(polls: nat, f: Finish, spin: nat, grain: nat, left: int)
    requires !Enough(polls, f, spin, grain, left)
    ensures AtMost(polls + 1, f, spin, grain, left)
  {
    forall n: nat | Enough(n, f, spin, grain, left)
      ensures polls + 1 <= n
    {
      if n <= polls {
        MorePolls(n, polls, f, spin, grain, left);
      }
    }
  }

  lemma NotEnoughYet(n: nat, f: Finish, spin: nat, grain: nat, started: int, now: int, deadline: int)
    requires Polled(n, spin, grain, started, now, deadline) && (f.Within? ==> n < f.n)
    ensures !Enough(n, f, spin, grain, deadline - started)
  {
  }

  /**
   The inner loop of the write worker. A transfer that stalls among the first 192 is still waited for after any
   number of polls, and the clock has not been looked at.
   */
  method AwaitWrite(port: Port, clock: Clock, deadline: int, spin: nat, limit: Limit, ghost s: State)
      returns (expired: bool, cut: bool)
    requires Ok(s) && !s.inFlight && Ok(port.s) && port.s == StartedFrom(s) && port.age == 0
    requires limit.ToTheEnd? ==> Ends(port.finish(|s.log|), spin, clock.grain)
    modifies port, clock
    ensures Ok(port.s) && Waiting(s, port.s) && clock.now >= old(clock.now)
    ensures spin < SPIN_YIELD_LIMIT ==> clock.now == old(clock.now) && clock.readings == old(clock.readings)
    ensures expired ==> !cut && clock.now >= deadline && spin >= SPIN_YIELD_LIMIT
    ensures !expired && !cut ==> port.s == Completed(StartedFrom(s))
    // The run is cut off after exactly the polls of the limit, and no limit is exceeded.
    ensures cut ==> limit.Polls? && port.looks == old(port.looks) + limit.n + 1
    ensures limit.Polls? ==> port.looks <= old(port.looks) + limit.n + 1
    ensures port.seen == old(port.seen) + if expired || cut then 0 else 1
    // Enough polls end the wait, with or without a limit.
    ensures cut ==> !Enough(limit.n, port.finish(|s.log|), spin, clock.grain, deadline - old(clock.now))
    ensures port.looks > old(port.looks) &&
            AtMost(port.looks - old(port.looks) - 1, port.finish(|s.log|), spin, clock.grain, deadline - old(clock.now))
    ensures port.finish(|s.log|).Never? ==> port.s == StartedFrom(s) && (spin < SPIN_YIELD_LIMIT ==> cut)
  {
    hide Polled, Enough, AtMost, Completed;
    expired, cut := false, false;
    PolledAtFirst(spin, clock.grain, clock.now, deadline);
    ghost var f, t, started := port.finish(|s.log|), port.s, clock.now;
    var polls: nat := 0;
    StartIsNotLost(s);
    var done := port.PollDone();
    WaitingGoesOn(s, t, port.s);
    NoPollsAtMost(f, spin, clock.grain, deadline - started);
    while !done
      invariant Ok(port.s) && Waiting(s, port.s) && clock.now >= started && done == port.s.done
      invariant port.looks == old(port.looks) + polls + 1 && port.seen == old(port.seen) + if done then 1 else 0
      invariant AtMost(polls, f, spin, clock.grain, deadline - started)
      invariant port.s.done <==> port.s == Completed(StartedFrom(s))
      invariant port.s.done || port.s == StartedFrom(s)
      invariant f.Never? ==> !port.s.done
      invariant f.Within? && !port.s.done ==> port.age == polls + 1 <= f.n
      invariant spin < SPIN_YIELD_LIMIT ==> clock.now == started && clock.readings == old(clock.readings)
      invariant Polled(polls, spin, clock.grain, started, clock.now, deadline)
      invariant limit.Polls? ==> polls <= limit.n
      decreases if limit.Polls? then limit.n - polls else 0,
                if port.s.done then 0 else LooksLeft(f, port.age), TimeLeft(clock.now, deadline)
    {
      NotEnoughYet(polls, f, spin, clock.grain, started, clock.now, deadline);
      if limit.Polls? && polls == limit.n {
        return false, true;
      }
      expired := StuckWait(clock, deadline, spin, polls, started);
      if expired {
        return;
      }
      OnePollMore(polls, f, spin, clock.grain, deadline - started);
      polls := polls + 1;
      t := port.s;
      done := port.PollDone();
      WaitingGoesOn(s, t, port.s);
    }
  }

  /**
   One word: the START that sends it also acknowledges the DONE of the word before, because the bitfield assignment
   writes the DONE bit back as read.
   */
  method WriteWord(port: Port, clock: Clock, deadline: int, spin: nat, w: Word, limit: Limit)
      returns (expired: bool, cut: bool)
    requires Ok(port.s) && !port.s.inFlight && port.s.write
    requires limit.ToTheEnd? ==> Ends(port.finish(|port.s.log|), spin, clock.grain)
    modifies port, clock
    ensures Ok(port.s) && clock.now >= old(clock.now)
    ensures spin < SPIN_YIELD_LIMIT ==> clock.now == old(clock.now) && clock.readings == old(clock.readings)
    ensures port.s.lost == old(port.s.lost) && port.s.write && port.s.addr == old(port.s.addr)
    ensures expired ==> !cut && clock.now >= deadline && spin >= SPIN_YIELD_LIMIT && !port.s.done
    ensures expired || cut ==> NotYet(old(port.s), port.s) || Sent(old(port.s), port.s, w)
    ensures !expired && !cut ==> !port.s.inFlight && port.s.done && Sent(old(port.s), port.s, w)
    ensures port.seen == old(port.seen) + if expired || cut then 0 else 1
    ensures var f := port.finish(|old(port.s.log)|);
            && (cut ==> limit.Polls? && port.looks == old(port.looks) + limit.n + 1)
            && (cut ==> !Enough(limit.n, f, spin, clock.grain, deadline - old(clock.now)))
            && (limit.Polls? ==> port.looks <= old(port.looks) + limit.n + 1)
            && port.looks > old(port.looks)
            && AtMost(port.looks - old(port.looks) - 1, f, spin, clock.grain, deadline - old(clock.now))
            && (f.Never? && spin < SPIN_YIELD_LIMIT ==> cut && port.s.inFlight && NotYet(old(port.s), port.s))
  {
    hide Enough, AtMost;
    port.WriteDd(w);
    ghost var s := port.s;
    StartIsNotLost(s);
    port.SetIdleDcs(Start, true);
    expired, cut := AwaitWrite(port, clock, deadline, spin, limit, s);
    if expired {
      port.AcknowledgeDone();
    }
  }

  ghost predicate NotYet(s: State, t: State) {
    t.mem == s.mem && t.log == s.log
  }

  ghost predicate Sent(s: State, t: State, w: Word)
    requires Ok(s)
  {
    t.mem == s.mem[s.addr := Low18(w)] && t.log == s.log + [Wrote(s.addr, Low18(w))]
  }

  /** The words of `data`, one transfer each, have reached the device since `s`. */
  ghost predicate AllSent(s: State, t: State, addr: nat, increment: int, data: seq<Word>)
    requires Ok(s)
  {
    t.log == s.log + WriteLog(addr, increment, data) && t.mem == Written(s.mem, addr, increment, data)
  }

  lemma NothingSentYet(s: State, t: State, addr: nat, increment: int)
    requires Ok(s) && NotYet(s, t) && addr < 256
    ensures AllSent(s, t, addr, increment, []) && Addr8(addr, increment, 0) == addr
  {
    assert WriteLog(addr, increment, []) == [];
  }

  lemma StillSent(s: State, t: State, u: State, addr: nat, increment: int, data: seq<Word>)
    requires Ok(s) && AllSent(s, t, addr, increment, data) && NotYet(t, u)
    ensures AllSent(s, u, addr, increment, data)
  {
  }

  lemma SentOrNot(s: State, t: State, u: State, addr: nat, increment: int, data: seq<Word>)
    requires Ok(s) && Ok(t) && data != []
    requires AllSent(s, t, addr, increment, data[..|data| - 1]) && t.addr == AddrAt(addr, increment, |data| - 1)
    ensures NotYet(t, u) ==> AllSent(s, u, addr, increment, data[..|data| - 1])
    ensures Sent(t, u, data[|data| - 1]) ==> AllSent(s, u, addr, increment, data)
  {
    var n := |data| - 1;
    assert WriteLog(addr, increment, data) == WriteLog(addr, increment, data[..n]) + [Wrote(t.addr, Low18(data[n]))];
  }

  lemma AllSentLength(s: State, t: State, addr: nat, increment: int, data: seq<Word>)
    requires Ok(s) && AllSent(s, t, addr, increment, data)
    ensures |t.log| == |s.log| + |data|
  {
  }

  /** When the i-th of the transfers from number `first` on completes. */
  function Kth(finish: nat -> Finish, first: nat, i: nat): Finish { finish(first + i) }

  /** The device completes each of the first 192 transfers of a write that begins with transfer number `first`. */
  ghost predicate EarlyOnesFinish(finish: nat -> Finish, first: nat, len: int) {
    forall i: nat | i < len && i < SPIN_YIELD_LIMIT :: Kth(finish, first, i).Within?
  }

  /** The inner loop ends for each word of a write. */
  ghost predicate AllEnd(finish: nat -> Finish, first: nat, len: int, grain: nat) {
    forall i: nat | i < len :: Ends(Kth(finish, first, i), i, grain)
  }

  /** So many polls for each word are enough for the whole write. */
  ghost predicate EnoughForAll(n: nat, finish: nat -> Finish, first: nat, len: int, grain: nat) {
    forall i: nat | i < len :: Enough(n, Kth(finish, first, i), i, grain, PROG_WRITE_TIMEOUT_S * NS_PER_S)
  }

  lemma MorePolls(m: nat, n: nat, f: Finish, spin: nat, grain: nat, left: int)
    requires m <= n && Enough(m, f, spin, grain, left)
    ensures Enough(n, f, spin, grain, left)
  {
    assert m * grain <= n * grain;
  }

  /** On a clock that moves, the write worker ends if and only if the device completes the first 192 transfers. */
  lemma {:induction false} WriteEndsIff(finish: nat -> Finish, first: nat, len: int, grain: nat)
    requires grain > 0
    ensures (exists n: nat :: EnoughForAll(n, finish, first, len, grain)) <==> EarlyOnesFinish(finish, first, len)
    ensures AllEnd(finish, first, len, grain) <==> EarlyOnesFinish(finish, first, len)
    decreases Max(len, 0)
  {
    if len <= 0 {
      assert EnoughForAll(0, finish, first, len, grain);
    } else if EarlyOnesFinish(finish, first, len) {
      WriteEndsIff(finish, first, len - 1, grain);
      var n: nat :| EnoughForAll(n, finish, first, len - 1, grain);
      var f, total := Kth(finish, first, len - 1), PROG_WRITE_TIMEOUT_S * NS_PER_S;
      var k: nat := if f.Within? then f.n else total;
      assert Enough(k, f, len - 1, grain, total);
      forall i: nat | i < len
        ensures Enough(Max(n, k), Kth(finish, first, i), i, grain, total)
      {
        MorePolls(if i < len - 1 then n else k, Max(n, k), Kth(finish, first, i), i, grain, total);
      }
      assert EnoughForAll(Max(n, k), finish, first, len, grain);
    } else {
      var i: nat :| i < len && i < SPIN_YIELD_LIMIT && !Kth(finish, first, i).Within?;
      assert forall n: nat :: !Enough(n, Kth(finish, first, i), i, grain, PROG_WRITE_TIMEOUT_S * NS_PER_S);
    }
  }

  /** The i-th word of a write since `s0`, and the address for the one after it. */
  method WriteNext(port: Port, clock: Clock, deadline: int, limit: Limit, data: array<Word>, i: nat, a: nat,
                   addr: nat, increment: int, ghost s0: State)
      returns (expired: bool, cut: bool, b: nat)
    requires Ok(s0) && Ok(port.s) && !port.s.inFlight && port.s.write && i < data.Length
    requires a == Addr8(addr, increment, i) && port.s.addr == AddrAt(addr, increment, i)
    requires AllSent(s0, port.s, addr, increment, data[..i])
    requires limit.ToTheEnd? ==> Ends(port.finish(|port.s.log|), i, clock.grain)
    modifies port, clock
    ensures Ok(port.s) && clock.now >= old(clock.now) && port.s.lost == old(port.s.lost) && port.s.write
    ensures i < SPIN_YIELD_LIMIT ==> clock.now == old(clock.now) && clock.readings == old(clock.readings)
    ensures expired ==> !cut && clock.now >= deadline && i >= SPIN_YIELD_LIMIT && !port.s.done
    ensures expired || cut ==>
              AllSent(s0, port.s, addr, increment, data[..i]) || AllSent(s0, port.s, addr, increment, data[..i + 1])
    ensures !expired && !cut ==>
              && !port.s.inFlight && port.s.write && port.s.done && AllSent(s0, port.s, addr, increment, data[..i + 1])
              && b == Addr8(addr, increment, i + 1) && port.s.addr == AddrAt(addr, increment, i + 1)
    ensures port.seen == old(port.seen) + if expired || cut then 0 else 1
    ensures var f := port.finish(|old(port.s.log)|);
            && (cut ==> limit.Polls? && port.looks == old(port.looks) + limit.n + 1)
            && (cut ==> !Enough(limit.n, f, i, clock.grain, deadline - old(clock.now)))
            && (limit.Polls? ==> port.looks <= old(port.looks) + limit.n + 1)
            && port.looks > old(port.looks)
            && AtMost(port.looks - old(port.looks) - 1, f, i, clock.grain, deadline - old(clock.now))
            && (f.Never? && i < SPIN_YIELD_LIMIT ==> cut)
  {
    hide AllSent, Sent, NotYet, Addr8, Step, Low18, Enough, Ends, AtMost;
    ghost var s := port.s;
    b := a;
    NextAddr8(addr, increment, i);
    expired, cut := WriteWord(port, clock, deadline, i, data[i], limit);
    assert data[..i + 1][..i] == data[..i];
    SentOrNot(s0, s, port.s, addr, increment, data[..i + 1]);
    if !expired && !cut {
      ghost var u := port.s;
      b := MoveOn(port, a, increment);
      StillSent(s0, u, port.s, addr, increment, data[..i + 1]);
    }
  }

  /**
   One transfer per word, START never lost, and no stale DONE taken for an answer. The caller must have put the
   first address into DA. A timeout can only be reported after 192 words; then at most one transfer more has been
   made. A run that is followed to its end needs a device for which it has one; by `WriteEndsIff` and the clauses on
   `cut`, that is, on a clock that moves, one that completes the first 192 transfers.
   */
  method SmiWriteAwaitDirect(port: Port, clock: Clock, data: array?<Word>, addr: nat, len: int, increment: int,
                             limit: Limit)
      returns (r: int, cut: bool, ghost got: nat)
    requires Ok(port.s) && !port.s.inFlight && addr < 256 && port.s.addr == addr % ADDRESSES
    requires data != null ==> len <= data.Length
    requires limit.ToTheEnd? ==> AllEnd(port.finish, |port.s.log|, len, clock.grain)
    modifies port, clock
    ensures Ok(port.s)
    ensures data == null ==> r == SMI_ERR_NULL_PTR && !cut && port.s == old(port.s) && port.looks == old(port.looks)
    ensures data != null ==> got <= Max(len, 0) && got <= data.Length && port.s.lost == old(port.s.lost)
    ensures data != null && got == Max(len, 0) ==>
              && r == got && !cut && !port.s.inFlight && port.s.done == (got > 0)
              && AllSent(old(port.s), port.s, addr, increment, data[..got])
    ensures data != null && got < len ==>
              && (AllSent(old(port.s), port.s, addr, increment, data[..got]) ||
                  AllSent(old(port.s), port.s, addr, increment, data[..got + 1]))
    ensures data != null && got < len && !cut ==>
              && r == SMI_ERR_TIMEOUT && got >= SPIN_YIELD_LIMIT && !port.s.done
              && clock.now >= old(clock.now) + PROG_WRITE_TIMEOUT_S * NS_PER_S
    // The run reaches its end only if the first 192 transfers complete, and does if enough polls are followed.
    ensures data != null && !cut ==> EarlyOnesFinish(port.finish, |old(port.s.log)|, len)
    ensures cut ==> limit.Polls? && !EnoughForAll(limit.n, port.finish, |old(port.s.log)|, len, clock.grain)
    // DONE has been seen exactly once for every word: the first sight of it ends the wait.
    ensures data != null ==> port.s.write && port.seen == old(port.seen) + got
    ensures data != null && got == Max(len, 0) ==> port.s.addr == AddrAt(addr, increment, got)
    // A run is cut off only when one word has been polled to the limit, and no word is polled further, or further
    // than is enough.
    ensures cut ==> port.looks >= old(port.looks) + got + limit.n + 1
    ensures data != null ==>
              && port.looks >= old(port.looks) + got && (got < len ==> port.looks > old(port.looks) + got)
              && (limit.Polls? ==> port.looks <= old(port.looks) + (limit.n + 1) * Max(len, 0))
              && LooksFit(port.looks - old(port.looks), Max(len, 0), port.finish, |old(port.s.log)|, len, clock.grain)
    // In the first 192 words the clock is not looked at after the deadline has been set.
    ensures data != null && got < SPIN_YIELD_LIMIT ==> |clock.readings| == |old(clock.readings)| + 1
  {
    hide AllSent, Sent, NotYet, Addr8, Step, Low18, Enough, EnoughForAll, Ends, AllEnd, EarlyOnesFinish;
    hide AtMost, LooksFit, Account;
    got, cut := 0, false;
    if data == null {
      return SMI_ERR_NULL_PTR, false, 0;
    }
    var count: nat, spin: nat, a := 0, 0, addr;
    ghost var s0 := port.s;
    var deadline := StartTimeout(clock, PROG_WRITE_TIMEOUT_S);
    port.SetIdleDcs(Write, true);
    NothingSentYet(s0, port.s, addr, increment);
    NothingToAccount(limit, port.finish, |s0.log|, len, clock.grain);
    assert data[..count] == [];

    while count < len
      invariant 0 <= count <= Max(len, 0) && got == count && spin == count && Ok(port.s) && !cut
      invariant !port.s.inFlight && port.s.done == (count > 0) && port.s.write && port.s.lost == s0.lost
      invariant a == Addr8(addr, increment, count) && port.s.addr == AddrAt(addr, increment, count)
      invariant AllSent(s0, port.s, addr, increment, data[..count])
      invariant Account(port.looks - old(port.looks), count, limit, port.finish, |s0.log|, len, clock.grain)
      invariant clock.now >= old(clock.now) && deadline >= old(clock.now) + PROG_WRITE_TIMEOUT_S * NS_PER_S
      invariant deadline <= clock.now + PROG_WRITE_TIMEOUT_S * NS_PER_S
      invariant port.seen == old(port.seen) + count
      invariant count <= SPIN_YIELD_LIMIT ==> |clock.readings| == |old(clock.readings)| + 1
    {
      ghost var s := port.s;
      AllSentLength(s0, s, addr, increment, data[..count]);
      count := count + 1;
      ghost var left, looks := deadline - clock.now, port.looks;
      var expired;
      if limit.ToTheEnd? {
        EndsAt(port.finish, |s0.log|, len, clock.grain, count - 1);
      }
      expired, cut, a := WriteNext(port, clock, deadline, limit, data, spin, a, addr, increment, s0);
      Accounted(looks - old(port.looks), port.looks - looks, count - 1, limit, port.finish, |s0.log|, len, clock.grain,
                left);
      if expired {
        return SMI_ERR_TIMEOUT, false, count - 1;
      }
      if cut {
        NotEnough(limit.n, port.finish, |s0.log|, len, clock.grain, count - 1, left);
        return 0, true, count - 1;
      }
      got := count;
      spin := spin + 1;
    }
    AllAccounted(port.looks - old(port.looks), count, limit, port.finish, |s0.log|, len, clock.grain);
    r := count;
  }

  /** After `words` words: each was looked at, none beyond the limit or what is enough, and the early ones finished. */
  ghost predicate Account(looks: int, words: nat, limit: Limit, finish: nat -> Finish, first: nat, len: int,
                          grain: nat)
  {
    && words <= looks && (limit.Polls? ==> looks <= (limit.n + 1) * words)
    && LooksFit(looks, words, finish, first, len, grain) && EarlyOnesFinish(finish, first, words)
  }

  lemma NothingToAccount(limit: Limit, finish: nat -> Finish, first: nat, len: int, grain: nat)
    ensures Account(0, 0, limit, finish, first, len, grain)
  {
  }

  /** One word more, with `more` looks: if it completed, the account goes on, and if not, it is closed. */
  lemma Accounted(looks: int, more: int, i: nat, limit: Limit, finish: nat -> Finish, first: nat, len: int, grain: nat,
                  left: int)
    requires Account(looks, i, limit, finish, first, len, grain)
    requires i < len && left <= PROG_WRITE_TIMEOUT_S * NS_PER_S
    requires more > 0 && AtMost(more - 1, finish(first + i), i, grain, left) && (limit.Polls? ==> more <= limit.n + 1)
    ensures i < looks + more && (limit.Polls? ==> looks + more <= (limit.n + 1) * len)
    ensures LooksFit(looks + more, len, finish, first, len, grain)
    ensures finish(first + i).Within? || i >= SPIN_YIELD_LIMIT ==>
              Account(looks + more, i + 1, limit, finish, first, len, grain)
    ensures i >= SPIN_YIELD_LIMIT ==> EarlyOnesFinish(finish, first, len)
    ensures looks + more >= i + more
  {
    hide AtMost, LooksFit, EarlyOnesFinish;
    if limit.Polls? {
      OneWordMore(looks, more, limit.n, i, len);
    }
    MoreLooks(looks, more, i, finish, first, len, grain, left);
    if i >= SPIN_YIELD_LIMIT {
      EarlyOnesAreAll(finish, first, i, len);
    }
    if finish(first + i).Within? || i >= SPIN_YIELD_LIMIT {
      OneMoreFinishes(finish, first, i);
    }
  }

  lemma AllAccounted(looks: int, words: nat, limit: Limit, finish: nat -> Finish, first: nat, len: int, grain: nat)
    requires Account(looks, words, limit, finish, first, len, grain) && words == Max(len, 0)
    ensures words <= looks && (limit.Polls? ==> looks <= (limit.n + 1) * Max(len, 0))
    ensures LooksFit(looks, Max(len, 0), finish, first, len, grain) && EarlyOnesFinish(finish, first, len)
  {
  }

  /** `looks` at the port for `words` words, each once more at most than any number of polls that is enough. */
  ghost predicate LooksFit(looks: int, words: nat, finish: nat -> Finish, first: nat, len: int, grain: nat) {
    forall n: nat | EnoughForAll(n, finish, first, len, grain) :: looks <= (n + 1) * words
  }

  lemma OneWordMore(looks: int, more: int, n: nat, words: nat, len: nat)
    requires looks <= (n + 1) * words && more <= n + 1 && words < len
    ensures looks + more <= (n + 1) * (words + 1) <= (n + 1) * len
  {
    assert (n + 1) * (words + 1) == (n + 1) * words + n + 1;
    assert (n + 1) * (len - words - 1) >= 0;
  }

  lemma MoreLooks(looks: int, more: int, i: nat, finish: nat -> Finish, first: nat, len: int, grain: nat, left: int)
    requires LooksFit(looks, i, finish, first, len, grain) && i < len && left <= PROG_WRITE_TIMEOUT_S * NS_PER_S
    requires more > 0 && AtMost(more - 1, finish(first + i), i, grain, left)
    ensures LooksFit(looks + more, i + 1, finish, first, len, grain)
    ensures LooksFit(looks + more, len, finish, first, len, grain)
  {
    forall n: nat | EnoughForAll(n, finish, first, len, grain)
      ensures looks + more <= (n + 1) * (i + 1) <= (n + 1) * len
    {
      assert Enough(n, Kth(finish, first, i), i, grain, PROG_WRITE_TIMEOUT_S * NS_PER_S);
      assert Enough(n, finish(first + i), i, grain, left);
      OneWordMore(looks, more, n, i, len);
    }
  }

  lemma OneMoreFinishes(finish: nat -> Finish, first: nat, n: nat)
    requires EarlyOnesFinish(finish, first, n) && (n < SPIN_YIELD_LIMIT ==> Kth(finish, first, n).Within?)
    ensures EarlyOnesFinish(finish, first, n + 1)
  {
  }

  lemma EarlyOnesAreAll(finish: nat -> Finish, first: nat, n: nat, len: int)
    requires EarlyOnesFinish(finish, first, n) && (n == Max(len, 0) || n >= SPIN_YIELD_LIMIT)
    ensures EarlyOnesFinish(finish, first, len)
  {
  }

  lemma EndsAt(finish: nat -> Finish, first: nat, len: int, grain: nat, i: nat)
    requires AllEnd(finish, first, len, grain) && i < len
    ensures Ends(finish(first + i), i, grain)
  {
    assert Ends(Kth(finish, first, i), i, grain);
  }

  lemma NotEnough(n: nat, finish: nat -> Finish, first: nat, len: int, grain: nat, i: nat, left: int)
    requires i < len && left <= PROG_WRITE_TIMEOUT_S * NS_PER_S && !Enough(n, finish(first + i), i, grain, left)
    ensures !EnoughForAll(n, finish, first, len, grain)
  {
    assert !Enough(n, Kth(finish, first, i), i, grain, PROG_WRITE_TIMEOUT_S * NS_PER_S);
  }
}
