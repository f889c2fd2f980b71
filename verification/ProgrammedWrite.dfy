/** `smi_programmed_write_arr` of src/smi.c: set-up, START and the await loop, from an idle device in any state. */
module ProgrammedWrite {
  import opened Words
  import opened Device
  import opened Timeout
  import opened WriteAwait

  /** The CS assignments before the transfer; every stale flag and FIFO word is gone afterwards. */
  method ConfigureWrite(dev: Smi)
    requires Ok(dev.s) && !dev.s.active
    modifies dev`s
    ensures Ok(dev.s)
    ensures dev.s == old(dev.s).(aferr := false, seterr := false, done := false, enable := true, write := true,
                                 pxldat := false, rx := [], tx := [])
  {
    dev.SetIdleCs(Aferr, false);
    dev.SetIdleCs(Seterr, true);
    dev.SetIdleCs(Done, true);
    dev.SetIdleCs(Enable, true);
    dev.SetIdleCs(Write, true);
    dev.SetIdleCs(Clear, true);
    dev.SetIdleCs(Pxldat, false);
  }

  /** What the await loop promises, for a transfer that started from empty FIFOs with DONE clear. */
  lemma FreshTransferDelivers(s: State, t: State, pushed: seq<Word>)
    requires s.write && !s.done && s.sent == [] && s.tx == []
    requires Sending(s, t, pushed) && t.done
    ensures |t.sent| == s.length <= |pushed|
    ensures t.sent == pushed[..s.length] && t.tx == pushed[s.length..]
  {
    assert t.sent + t.tx == pushed;
  }

  const INT_LIMIT: int := 0x8000_0000

  /** The length register takes an `int` as an unsigned word. */
  function LengthWord(len: int): (n: nat)
    requires -INT_LIMIT <= len < INT_LIMIT
    ensures len >= 0 ==> n == len
    ensures len < 0 ==> n == len + 2 * INT_LIMIT
  {
    len % 0x1_0000_0000
  }

  /** The set-up registers of a write: the address and length asked for, and everything else as it was. */
  ghost predicate SetUp(s: State, t: State, addr: nat, len: int)
    requires -INT_LIMIT <= len < INT_LIMIT
  {
    && t.enable && t.write && !t.pxldat && t.address == addr % 64 && t.length == LengthWord(len)
    && t.device == s.device && t.banks == s.banks
  }

  /**
   If the loop is left for DONE, the device has received exactly `data[..len]`, and at most one word more is left
   in the FIFO; on a timeout it has received a prefix of the data. An AXI FIFO error cannot happen, and a negative
   length, which the device takes for a huge one, can only time out with nothing sent.
   */
  method SmiProgrammedWriteArr(dev: Smi, clock: Clock, data: array?<Word>, addr: nat, len: int)
      returns (r: int, ghost ending: Ending, ghost pushed: nat)
    requires Ok(dev.s) && !dev.s.active && -INT_LIMIT <= len < INT_LIMIT
    requires data != null ==> len < data.Length
    modifies dev, clock
    ensures Ok(dev.s)
    ensures SetUp(old(dev.s), dev.s, addr, len)
    ensures data == null ==> ending.NoData? && r == SMI_ERR_NULL_PTR
    ensures data != null ==> ending.Finished? || ending.TimedOut?
    ensures ending.Finished? ==>
              && len >= 0 && r == pushed && (r == len || r == len + 1) && !dev.s.aferr && dev.s.done
              && dev.s.sent == data[..len] && dev.s.tx == data[len..r]
    ensures ending.TimedOut? ==>
              && r == SMI_ERR_TIMEOUT && pushed <= Max(len + 1, 0) && dev.s.sent <= data[..pushed] && !dev.s.done
              && clock.now >= old(clock.now) + PROG_WRITE_TIMEOUT_S * NS_PER_S
    ensures data != null ==>
              PolledWrite(old(dev.polls), dev.polls, old(clock.slept), clock.slept, len, pushed, ending)
  {
    hide PolledWrite;
    ConfigureWrite(dev);
    dev.SetLength(LengthWord(len));
    dev.SetAddress(addr);
    dev.StartIdle();
    ghost var s := dev.s;
    r, ending, pushed := SmiWriteAwait(dev, clock, data, len);
    if ending.Finished? {
      FreshTransferDelivers(s, dev.s, data[..pushed]);
      assert data[..pushed][..s.length] == data[..s.length] && data[..pushed][s.length..] == data[s.length..pushed];
    } else if ending.TimedOut? {
      assert s.sent + s.tx + data[..pushed] == data[..pushed];
    }
  }
}
