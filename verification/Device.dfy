/**
 The SMI peripheral as the driver sees it (docs/smi-docs/smi-docs.md): registers, two 64-entry FIFOs, and a transfer
 engine that runs on its own clock. `Runs` is everything the engine may do between two register accesses.
 */
module Device {
  import opened Words
  import opened Packing
  import opened Streams

  const FIFO_DEPTH: nat := 64

  const SMI_8_BITS: nat := 0
  const SMI_16_BITS: nat := 1
  const SMI_18_BITS: nat := 2
  const SMI_9_BITS: nat := 3

  /** The CS register as read, or as written back by a bitfield assignment. START and CLEAR read as 0. */
  datatype Cs = Cs(enable: bool, done: bool, start: bool, clear: bool, write: bool, seterr: bool,
                   pxldat: bool, aferr: bool, rxd: bool, txd: bool)

  datatype CsField = Enable | Done | Start | Clear | Write | Seterr | Pxldat | Aferr

  function SetField(c: Cs, f: CsField, v: bool): Cs {
    c.(enable := if f.Enable? then v else c.enable,
       done := if f.Done? then v else c.done,
       start := if f.Start? then v else c.start,
       clear := if f.Clear? then v else c.clear,
       write := if f.Write? then v else c.write,
       seterr := if f.Seterr? then v else c.seterr,
       pxldat := if f.Pxldat? then v else c.pxldat,
       aferr := if f.Aferr? then v else c.aferr)
  }

  /** The DSR and DSW settings of one of the four selectable devices; WFORMAT is true for XRGB. */
  datatype Bank = Bank(rwidth: nat, wformat: bool, wswap: bool)

  /**
   Registers, FIFOs and the transfer in progress. `feed` is what a read transfer will put into the RX FIFO,
   `captured` what it has put there so far, and `sent` what a write transfer has put on the bus.
   */
  datatype State = State(
    enable: bool, done: bool, write: bool, seterr: bool, pxldat: bool, aferr: bool,
    length: nat, device: nat, address: nat, banks: seq<Bank>,
    rx: seq<Word>, tx: seq<Word>,
    active: bool, feed: seq<Word>, captured: seq<Word>, sent: seq<Word>)

  ghost predicate Ok(s: State) {
    && |s.rx| <= FIFO_DEPTH && |s.tx| <= FIFO_DEPTH
    && |s.banks| == 4 && s.device < 4
    && s.captured <= s.feed
    && (s.active && s.write ==> |s.sent| <= s.length)
  }

  // ----- Register accesses -----

  function ReadCs(s: State): Cs {
    Cs(s.enable, s.done, false, false, s.write, s.seterr, s.pxldat, s.aferr,
       !s.write && s.rx != [], s.write && |s.tx| < FIFO_DEPTH)
  }

  /** DONE, SETERR and AFERR are cleared by writing 1; START does nothing while a transfer is active. */
  function WriteCs(s: State, w: Cs, feed: seq<Word>): State {
    var t := s.(enable := w.enable, write := w.write, pxldat := w.pxldat,
                done := s.done && !w.done, seterr := s.seterr && !w.seterr, aferr := s.aferr && !w.aferr);
    var u := if w.clear then t.(rx := [], tx := []) else t;
    if w.start && w.enable && !s.active then u.(active := true, feed := feed, captured := [], sent := []) else u
  }

  /** Reading D takes the oldest word out of the RX FIFO; reading an empty FIFO is an AXI FIFO error. */
  function Popped(s: State): State {
    if s.rx == [] then s.(aferr := true) else s.(rx := s.rx[1..])
  }

  /** Writing D appends to the TX FIFO; writing a full FIFO is an AXI FIFO error and the word is lost. */
  function Pushed(s: State, w: Word): State {
    if |s.tx| == FIFO_DEPTH then s.(aferr := true) else s.(tx := s.tx + [w])
  }

  // ----- The transfer engine -----

  predicate Complete(s: State) {
    if s.write then |s.sent| == s.length else |s.captured| == |s.feed|
  }

  /** One action of the engine: capture a word, send a word, or finish. */
  ghost predicate EngineStep(s: State, t: State) {
    s.active &&
    if Complete(s) then
      t == s.(active := false, done := true)
    else if s.write then
      s.tx != [] && t == s.(tx := s.tx[1..], sent := s.sent + [s.tx[0]])
    else
      |s.rx| < FIFO_DEPTH && |s.captured| < |s.feed| &&
      var w := s.feed[|s.captured|];
      t == s.(rx := s.rx + [w], captured := s.captured + [w])
  }

  /** Any number of words captured into the RX FIFO, in order, as far as there is room. */
  ghost predicate Captures(s: State, t: State) {
    && t.tx == s.tx && t.sent == s.sent
    && s.captured <= t.captured <= s.feed
    && t.rx == s.rx + t.captured[|s.captured|..]
    && |t.rx| <= FIFO_DEPTH
  }

  /** Any number of words sent from the TX FIFO, in order, up to the transfer length. */
  ghost predicate Sends(s: State, t: State) {
    && t.rx == s.rx && t.captured == s.captured
    && s.sent <= t.sent && |t.sent| <= s.length
    && t.sent[|s.sent|..] + t.tx == s.tx
  }

  /** Everything the engine may have done since the last register access. */
  ghost predicate Runs(s: State, t: State) {
    if !s.active then t == s
    else
      && t == s.(rx := t.rx, tx := t.tx, captured := t.captured, sent := t.sent, done := t.done, active := t.active)
      && (if s.write then Sends(s, t) else Captures(s, t))
      && ((t.active && t.done == s.done) || (!t.active && t.done && Complete(t)))
  }

  /** Only data, flags and the progress of the transfer differ: no set-up register has been written. */
  ghost predicate SameSetup(s: State, t: State) {
    t == s.(rx := t.rx, tx := t.tx, captured := t.captured, sent := t.sent, active := t.active,
            done := t.done, seterr := t.seterr, aferr := t.aferr)
  }

  lemma RunsNothing(s: State)
    requires Ok(s)
    ensures Runs(s, s)
  {
  }

  lemma EngineStepRuns(s: State, t: State)
    requires Ok(s) && EngineStep(s, t)
    ensures Runs(s, t)
  {
    if Complete(s) {
      RunsNothing(s);
    } else if s.write {
      assert t.sent[|s.sent|..] == [s.tx[0]];
    } else {
      assert t.captured[|s.captured|..] == [s.feed[|s.captured|]];
    }
  }

  lemma CapturesOn(s: State, t: State, u: State)
    requires Captures(s, t) && Captures(t, u) && t.feed == s.feed
    ensures Captures(s, u)
  {
    assert u.captured[|s.captured|..] == t.captured[|s.captured|..] + u.captured[|t.captured|..];
  }

  lemma SendsOn(s: State, t: State, u: State)
    requires Sends(s, t) && Sends(t, u) && t.length == s.length
    ensures Sends(s, u)
  {
    assert u.sent[|s.sent|..] == t.sent[|s.sent|..] + u.sent[|t.sent|..];
  }

  /** `Runs` covers every interleaving: it contains each single step and is closed under going on. */
  lemma RunsOn(s: State, t: State, u: State)
    requires Ok(s) && Runs(s, t) && Runs(t, u)
    ensures Runs(s, u)
  {
    hide Sends, Captures;
    if s.active && t.active {
      if s.write {
        SendsOn(s, t, u);
      } else {
        CapturesOn(s, t, u);
      }
    }
  }

  /** DONE reports the end of the transfer: everything captured, or everything sent; and it stays set. */
  lemma DoneMeansComplete(s: State, t: State)
    requires Ok(s) && Runs(s, t)
    ensures s.done ==> t.done
    ensures !s.done && t.done ==>
              s.active && !t.active && if s.write then |t.sent| == s.length else t.captured == s.feed
  {
  }

  lemma RunsStaysOk(s: State, t: State)
    requires Ok(s) && Runs(s, t)
    ensures Ok(t)
  {
  }

  /** The state after `k` words have been sent, or captured. */
  function SendMany(s: State, k: nat): State
    requires k <= |s.tx|
  {
    s.(sent := s.sent + s.tx[..k], tx := s.tx[k..])
  }

  function CaptureMany(s: State, k: nat): State
    requires |s.captured| + k <= |s.feed|
  {
    var c := |s.captured|;
    s.(captured := s.feed[..c + k], rx := s.rx + s.feed[c..c + k])
  }

  lemma SendManyRuns(s: State, k: nat)
    requires Ok(s) && s.active && s.write && k <= |s.tx| && |s.sent| + k <= s.length
    ensures Runs(s, SendMany(s, k))
  {
    assert SendMany(s, k).sent[|s.sent|..] == s.tx[..k];
  }

  lemma CaptureManyRuns(s: State, k: nat)
    requires Ok(s) && s.active && !s.write && |s.captured| + k <= |s.feed| && |s.rx| + k <= FIFO_DEPTH
    ensures Runs(s, CaptureMany(s, k))
  {
    var c := |s.captured|;
    assert CaptureMany(s, k).captured[c..] == s.feed[c..c + k];
  }

  lemma WriteCsIsOk(s: State, w: Cs, feed: seq<Word>)
    requires Ok(s) && (s.active ==> w.write == s.write)
    ensures Ok(WriteCs(s, w, feed))
  {
  }

  lemma SetFieldKeepsDirection(c: Cs, f: CsField, v: bool)
    ensures !f.Write? ==> SetField(c, f, v).write == c.write
  {
  }

  lemma ReadDirection(s: State)
    ensures ReadCs(s).write == s.write
  {
  }

  /** What a CS assignment other than START does on an idle engine: it also clears the flags that were set. */
  function IdleSet(s: State, f: CsField, v: bool): State {
    var t := s.(done := s.done && f.Done? && !v,
                seterr := s.seterr && f.Seterr? && !v,
                aferr := s.aferr && f.Aferr? && !v);
    match f
    case Enable => t.(enable := v)
    case Write => t.(write := v)
    case Pxldat => t.(pxldat := v)
    case Clear => if v then t.(rx := [], tx := []) else t
    case _ => t
  }

  lemma IdleSetIsWriteCs(s: State, f: CsField, v: bool, feed: seq<Word>)
    requires !s.active && !f.Start?
    ensures WriteCs(s, SetField(ReadCs(s), f, v), feed) == IdleSet(s, f, v)
  {
  }

  /**
   START assigned while a transfer is active, with the engine running to `a` before the read and to `b` before the
   write of CS: the old transfer goes on with its own feed, unless it has finished in time; only then a new one begins.
   */
  lemma StartMeetsOldTransfer(s: State, a: State, b: State, feed: seq<Word>)
    requires Ok(s) && s.active && s.enable && Runs(s, a) && Runs(a, b)
    ensures var t := WriteCs(b, SetField(ReadCs(a), Start, true), feed);
            if b.active then
              && SameSetup(s, t) && t.active && s.captured <= t.captured <= s.feed && s.sent <= t.sent
              && t.rx == b.rx && t.tx == b.tx
            else
              t.active && t.feed == feed && t.captured == [] && t.sent == [] && Complete(b)
  {
    RunsOn(s, a, b);
  }

  /** A transfer begins by START, on an engine that is enabled, and by nothing else. */
  lemma TransferBeginsIff(s: State, w: Cs, feed: seq<Word>)
    ensures WriteCs(s, w, feed).active <==> s.active || (w.start && w.enable)
  {
  }

  lemma RunsKeepsDirection(s: State, t: State)
    requires Runs(s, t)
    ensures t.write == s.write && (t.active ==> s.active)
  {
  }

  // ----- What a read transfer delivers -----

  /** The layout the hardware uses for the settings; none for an unknown width or an undocumented swap mode. */
  datatype Layout = Known(format: Format) | Unknown

  /** The unpack function that `smi_unpack` or `smi_truncate` selects. */
  function FormatOf(b: Bank, packed: bool): Layout {
    if b.rwidth > 3 then Unknown
    else if !packed then
      Known(if b.rwidth == SMI_8_BITS then Plain8 else if b.rwidth == SMI_9_BITS then Plain9
            else if b.rwidth == SMI_16_BITS then Plain16 else Plain18)
    else if b.rwidth == SMI_8_BITS then Known(if b.wformat then Xrgb8 else Rgb565x8)
    else if b.rwidth == SMI_9_BITS then
      Known(if b.wformat then (if b.wswap then Xrgb9Swap else Xrgb9) else (if b.wswap then Rgb565x9Swap else Rgb565x9))
    else if b.rwidth == SMI_16_BITS then Known(if b.wformat then Xrgb16 else Rgb565x16)
    else Known(if b.wformat then Xrgb18 else if b.wswap then Rgb565x18Swap else Rgb565x18)
  }

  predicate IsSwapped(f: Format) { f.Rgb565x9Swap? || f.Xrgb9Swap? || f.Rgb565x18Swap? }

  /**
   The selected layout is the only one with the bus width, pixel format and swap asked for; swap is told apart at
   9 bits and for 18-bit RGB565.
   */
  lemma SelectsTheOne(b: Bank, packed: bool, f: Format)
    ensures FormatOf(b, packed) == Known(f) <==>
              && (match b.rwidth case 0 => BusMask(f) == 0xFF case 1 => BusMask(f) == 0xFFFF
                  case 2 => BusMask(f) == 0x3FFFF case 3 => BusMask(f) == 0x1FF case _ => false)
              && f.IsPlain() == !packed
              && (packed ==> IsXrgb(f) == b.wformat)
              && IsSwapped(f) == (packed && b.wswap && (b.rwidth == 3 || (b.rwidth == 2 && !b.wformat)))
  {
  }

  /** The settings whose packing the driver's code and comments pin down: unswapped, or the 9-bit swap modes. */
  predicate Documented(b: Bank, packed: bool)
    ensures Documented(b, packed) <==>
              && FormatOf(b, packed).Known?
              && var f := FormatOf(b, packed).format;
                 packed && b.wswap ==> f.Rgb565x9Swap? || f.Xrgb9Swap?
    ensures Documented(b, packed) ==> !FormatOf(b, packed).format.Rgb565x18Swap?
  {
    b.rwidth <= 3 && (packed && b.wswap ==> b.rwidth == SMI_9_BITS)
  }

  function DivCeil(a: nat, b: nat): nat
    requires b > 0
  {
    (a + b - 1) / b
  }

  /** FIFO words for `n` samples. */
  function WordCount(f: Format, n: nat): nat {
    DivCeil(n * WordsPerGroup(f), PixelsPerGroup(f))
  }

  function Groups(f: Format, n: nat): nat {
    DivCeil(n, PixelsPerGroup(f))
  }

  lemma WordsFitGroups(f: Format, n: nat)
    ensures WordCount(f, n) <= Groups(f, n) * WordsPerGroup(f)
    ensures n <= Groups(f, n) * PixelsPerGroup(f) < n + PixelsPerGroup(f)
  {
  }

  /** The FIFO words of a transfer of `n` samples, cut at the last word that holds one of them. */
  function Transferred(f: Format, wire: seq<Word>, noise: seq<Word>, n: nat): seq<Word>
    requires !f.Rgb565x18Swap?
  {
    var words := Packed(f, wire, noise);
    words[..Min(WordCount(f, n), |words|)]
  }

  // ----- What polls have seen -----

  /** What a poll of CS may see: data in the RX FIFO, no room in the TX FIFO, or room when the transfer is done. */
  datatype Sight = Data | NoRoom | DoneAndRoom

  predicate Sees(x: Sight, p: State) {
    match x
    case Data => !p.write && p.rx != []
    case NoRoom => !p.write || |p.tx| == FIFO_DEPTH
    case DoneAndRoom => p.done && p.write && |p.tx| < FIFO_DEPTH
  }

  /** How many of the polls have seen it. */
  function Count(x: Sight, polls: seq<State>): nat {
    if polls == [] then 0
    else Count(x, polls[..|polls| - 1]) + if Sees(x, polls[|polls| - 1]) then 1 else 0
  }

  lemma CountGrows(x: Sight, polls: seq<State>, p: State)
    ensures Count(x, polls + [p]) == Count(x, polls) + if Sees(x, p) then 1 else 0
  {
    assert (polls + [p])[..|polls|] == polls;
  }

  /**
   The peripheral. `polls` is the history of the driver's polls of CS: the state that each of them saw.
   */
  class Smi {
    var s: State
    ghost var polls: seq<State>
    const peripheral: nat -> Word   // the i-th sample the external device drives
    const noise: nat -> Word        // the undefined bits of the i-th FIFO word
    const unknown: seq<Word>        // the FIFO words under undocumented settings

    constructor (s: State, peripheral: nat -> Word, noise: nat -> Word, unknown: seq<Word>)
      requires Ok(s)
      ensures this.s == s && polls == []
      ensures this.peripheral == peripheral && this.noise == noise && this.unknown == unknown
    {
      this.s := s;
      polls := [];
      this.peripheral := peripheral;
      this.noise := noise;
      this.unknown := unknown;
    }

    /** The samples on the data lines: whole groups covering `n` samples. */
    function Wire(f: Format, n: nat): (w: seq<Word>)
      ensures |w| == Groups(f, n) * PixelsPerGroup(f)
      ensures forall i | 0 <= i < |w| :: w[i] == Masked(peripheral(i), BusMask(f))
    {
      seq(Groups(f, n) * PixelsPerGroup(f), i requires 0 <= i => Masked(peripheral(i), BusMask(f)))
    }

    function Noise(n: nat): (w: seq<Word>)
      ensures |w| == n && forall i | 0 <= i < n :: w[i] == noise(i)
    {
      seq(n, i requires 0 <= i => noise(i))
    }

    /** The FIFO words of a transfer of `n` samples. */
    function HardwareWords(f: Format, n: nat): seq<Word>
      requires !f.Rgb565x18Swap?
    {
      Transferred(f, Wire(f, n), Noise(Groups(f, n) * WordsPerGroup(f)), n)
    }

    function Feed(bank: Bank, packed: bool, length: nat): seq<Word> {
      if Documented(bank, packed) then HardwareWords(FormatOf(bank, packed).format, length) else unknown
    }

    /** Lets the engine run for a while. */
    method Advance()
      requires Ok(s)
      modifies this`s
      ensures Runs(old(s), s) && Ok(s)
    {
      hide Runs, SendMany, CaptureMany;
      var t := s;
      RunsNothing(s);
      if s.active && s.write {
        var k: nat :| k <= |s.tx| && k <= s.length - |s.sent|;
        SendManyRuns(s, k);
        t := SendMany(s, k);
      } else if s.active {
        var k: nat :| k <= |s.feed| - |s.captured| && k <= FIFO_DEPTH - |s.rx|;
        CaptureManyRuns(s, k);
        t := CaptureMany(s, k);
      }
      var finish: bool := *;
      RunsStaysOk(s, t);
      if finish && t.active && Complete(t) {
        ghost var u := t;
        t := t.(active := false, done := true);
        EngineStepRuns(u, t);
        RunsOn(s, u, t);
        RunsStaysOk(s, t);
      }
      s := t;
    }

    /** A poll of the flags in CS. */
    method PollCs() returns (cs: Cs)
      requires Ok(s)
      modifies this
      ensures Ok(s) && Runs(old(s), s) && cs == ReadCs(s)
      ensures cs.rxd <==> Sees(Data, s)
      ensures cs.txd <==> s.write && |s.tx| < FIFO_DEPTH
      ensures cs.done == s.done && cs.aferr == s.aferr
      ensures polls == old(polls) + [s]
    {
      Advance();
      polls := polls + [s];
      cs := ReadCs(s);
    }

    method ReadD() returns (w: Word)
      requires Ok(s)
      modifies this`s
      ensures s == Popped(old(s)) && Ok(s)
      ensures s.aferr <==> old(s.aferr) || old(s.rx) == []
      ensures old(s.rx) != [] ==> w == old(s.rx)[0]
    {
      w := if s.rx == [] then 0 else s.rx[0];
      s := Popped(s);
    }

    method WriteD(w: Word)
      requires Ok(s)
      modifies this`s
      ensures s == Pushed(old(s), w) && Ok(s)
      ensures s.aferr <==> old(s.aferr) || |old(s.tx)| == FIFO_DEPTH
    {
      s := Pushed(s, w);
    }

    /**
     A bitfield assignment such as `cs->fields.clear = 1`: the register is read, one field changed, and the whole
     word written back. The engine runs before the read (to `a`) and between read and write (to `b`).
     */
    method SetCs(f: CsField, v: bool) returns (ghost a: State, ghost b: State)
      requires Ok(s) && (f.Write? ==> !s.active)
      modifies this`s
      ensures Runs(old(s), a) && Runs(a, b)
      ensures var c := SetField(ReadCs(a), f, v); s == WriteCs(b, c, Feed(b.banks[b.device], c.pxldat, b.length))
      ensures Ok(s)
    {
      hide Runs, WriteCs, ReadCs, SetField, Feed;
      ghost var s0 := s;
      Advance();
      a := s;
      RunsKeepsDirection(s0, a);
      var c := SetField(ReadCs(s), f, v);
      Advance();
      b := s;
      RunsKeepsDirection(a, b);
      SetFieldKeepsDirection(ReadCs(a), f, v);
      ReadDirection(a);
      WriteCsIsOk(b, c, Feed(b.banks[b.device], c.pxldat, b.length));
      s := WriteCs(s, c, Feed(s.banks[s.device], c.pxldat, s.length));
    }

    // ----- Set-up registers, written while no transfer is active -----

    /** A CS bitfield assignment other than START, on an idle engine. */
    method SetIdleCs(f: CsField, v: bool)
      requires Ok(s) && !s.active && !f.Start?
      modifies this`s
      ensures s == IdleSet(old(s), f, v) && Ok(s) && !s.active
    {
      hide Feed, Sends, Captures, WriteCs, ReadCs, SetField;
      ghost var a, b := SetCs(f, v);
      IdleSetIsWriteCs(a, f, v, Feed(b.banks[b.device], SetField(ReadCs(a), f, v).pxldat, b.length));
    }

    method SetLength(n: nat)
      requires Ok(s) && !s.active
      modifies this`s
      ensures s == old(s).(length := n) && Ok(s)
    {
      s := s.(length := n);
    }

    /** The address field of the A register holds 6 bits. */
    method SetAddress(addr: nat)
      requires Ok(s) && !s.active
      modifies this`s
      ensures s == old(s).(address := addr % 64) && Ok(s)
    {
      s := s.(address := addr % 64);
    }

    method SelectDevice(n: nat)
      requires Ok(s) && !s.active && n < 4
      modifies this`s
      ensures s == old(s).(device := n) && Ok(s)
    {
      s := s.(device := n);
    }

    /** The RWIDTH field of DSR holds 2 bits. */
    method SetReadWidth(n: nat, rwidth: nat)
      requires Ok(s) && !s.active && n < 4
      modifies this`s
      ensures s == old(s).(banks := old(s.banks)[n := old(s.banks)[n].(rwidth := rwidth % 4)]) && Ok(s)
    {
      s := s.(banks := s.banks[n := s.banks[n].(rwidth := rwidth % 4)]);
    }

    method SetWriteFormat(n: nat, wformat: bool, wswap: bool)
      requires Ok(s) && !s.active && n < 4
      modifies this`s
      ensures s == old(s).(banks := old(s.banks)[n := old(s.banks)[n].(wformat := wformat, wswap := wswap)]) && Ok(s)
    {
      s := s.(banks := s.banks[n := s.banks[n].(wformat := wformat, wswap := wswap)]);
    }

    /** `smi_start`: the transfer begins with the settings of the selected device. */
    method StartIdle()
      requires Ok(s) && !s.active && s.enable
      modifies this`s
      ensures Ok(s) && s.active && !s.done && s.captured == [] && s.sent == []
      ensures s.feed == Feed(s.banks[s.device], s.pxldat, s.length)
      ensures s == old(s).(active := true, done := false, seterr := false, aferr := false,
                           feed := s.feed, captured := [], sent := [])
    {
      ghost var a, b := SetCs(Start, true);
    }
  }
}
