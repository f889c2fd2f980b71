/** The packed-read pipeline of src/smi.c: ratio, word count, buffer growth, await, and unpack. */
module Pipeline {
  import opened Words
  import opened Packing
  import opened Streams
  import opened Device
  import opened Timeout
  import opened ReadAwait
  import opened RawBuffer

  /** The settings a context reads from `rconfig[0]` and `wconfig[0]`, and the devices it selects. */
  datatype Config = Config(bank: Bank, pxldata: bool, readDevice: nat, writeDevice: nat)

  datatype Ratio = Ratio(read: nat, outPixels: nat)

  /** `smi_packed_ratio`. */
  function PackedRatio(c: Config): (r: Ratio)
    ensures r.outPixels > 0
  {
    if !c.pxldata then Ratio(1, 1)
    else if c.bank.rwidth == SMI_8_BITS then if c.bank.wformat then Ratio(1, 3) else Ratio(1, 4)
    else if c.bank.rwidth == SMI_9_BITS then if c.bank.wformat then Ratio(1, 2) else Ratio(1, 4)
    else if c.bank.rwidth == SMI_16_BITS then if c.bank.wformat then Ratio(2, 3) else Ratio(1, 2)
    else if c.bank.rwidth == SMI_18_BITS then if c.bank.wformat then Ratio(1, 1) else Ratio(1, 2)
    else Ratio(1, 1)
  }

  function WordReads(c: Config, len: nat): nat {
    DivCeil(len * PackedRatio(c).read, PackedRatio(c).outPixels)
  }

  /** The ratio is the one of the unpacker that is selected: words consumed and samples produced by each step. */
  lemma RatioMatchesUnpacker(c: Config, len: nat)
    requires FormatOf(c.bank, c.pxldata).Known?
    ensures var f := FormatOf(c.bank, c.pxldata).format;
            PackedRatio(c) == Ratio(WordsPerGroup(f), PixelsPerGroup(f)) && WordReads(c, len) == WordCount(f, len)
  {
  }

  predicate LosesLast(f: Format, len: nat) { f.Xrgb16? && len % 3 == 1 }

  /**
   The words read for `len` samples yield at least `len` and fewer than `len` plus one group, except 16-bit XRGB
   with one sample in the last group: its word is dropped and `len - 1` samples come out.
   */
  lemma SamplesCoverRequest(f: Format, len: nat)
    ensures var n := SampleCount(f, WordCount(f, len));
            if LosesLast(f, len) then n == len - 1 else len <= n < len + PixelsPerGroup(f)
  {
  }

  /** Samples of the request that come out, and are stored for the caller. */
  function Kept(f: Format, len: nat): nat {
    if LosesLast(f, len) then len - 1 else len
  }

  /**
   The FIFO words of a transfer, cut at the last word it needs, unpack to as many samples as `SamplesCoverRequest`
   says. Those that were asked for are the samples on the wire if and only if the format can carry each of them.
   */
  lemma WireIsDelivered(f: Format, wire: seq<Word>, noise: seq<Word>, len: nat)
    requires !f.Rgb565x18Swap? && AllFit(f, wire)
    requires |wire| == Groups(f, len) * PixelsPerGroup(f) && |noise| == Groups(f, len) * WordsPerGroup(f)
    ensures var ws := Packed(f, wire, noise); var n := Kept(f, len);
            && WordCount(f, len) <= |ws| && n <= |wire|
            && var s := Unpacked(f, ws[..WordCount(f, len)]);
               && |s| == SampleCount(f, WordCount(f, len)) >= n
               && (s[..n] == wire[..n] <==> Legal(f, wire[..n]))
  {
    hide Samples, Legal, AllFit, Packed, Unpacked, SampleCount;
    WordsFitGroups(f, len);
    SamplesCoverRequest(f, len);
    PackedLength(f, wire, noise, Groups(f, len));
    PrefixSurvivesIff(f, wire, noise, Groups(f, len), Kept(f, len));
    UnpackedPrefix(f, Packed(f, wire, noise), WordCount(f, len));
  }

  // ----- The unpack loops -----

  /** One step of an unpack loop: the samples of one group are stored from `dst` on. */
  method StoreGroup(f: Format, raw: array<Word>, out: array<Word>, src: nat, dst: nat)
    requires raw != out && src + WordsPerGroup(f) <= raw.Length && dst + PixelsPerGroup(f) <= out.Length
    modifies out
    ensures out[..dst + PixelsPerGroup(f)] == old(out[..dst]) + Samples(f, raw[src], raw[src + WordsPerGroup(f) - 1])
    ensures forall i | dst + PixelsPerGroup(f) <= i < out.Length :: out[i] == old(out[i])
  {
    hide Sample, Narrowed;
    ghost var group := Samples(f, raw[src], raw[src + WordsPerGroup(f) - 1]);
    for j := 0 to PixelsPerGroup(f)
      invariant out[..dst] == old(out[..dst])
      invariant forall k | dst <= k < dst + j :: out[k] == group[k - dst]
      invariant forall i | dst + j <= i < out.Length :: out[i] == old(out[i])
    {
      StoreKeepsSample(f, j, raw[src], raw[src + WordsPerGroup(f) - 1]);
      out[dst + j] := Narrowed(f, Sample(f, j, raw[src], raw[src + WordsPerGroup(f) - 1]));
    }
  }

  /**
   The loop that the ten unpack functions and the four truncate functions share: they differ in the words and
   samples per step and in the expression stored.
   */
  method UnpackLoop(f: Format, raw: array<Word>, out: array<Word>, count: nat)
    requires raw != out && count <= raw.Length && SampleCount(f, count) <= out.Length
    modifies out
    ensures out[..SampleCount(f, count)] == Unpacked(f, raw[..count])
    ensures forall i | SampleCount(f, count) <= i < out.Length :: out[i] == old(out[i])
  {
    hide Unpacked, Samples, SampleCount;
    ghost var words := raw[..];
    var src, dst := 0, 0;
    NothingUnpacked(f, words);
    while src + WordsPerGroup(f) <= count
      invariant src <= count && src % WordsPerGroup(f) == 0 && dst == SampleCount(f, src) <= SampleCount(f, count)
      invariant out[..dst] == Unpacked(f, words[..src]) && raw[..] == words
      invariant forall i | dst <= i < out.Length :: out[i] == old(out[i])
    {
      SampleCountStep(f, src, count);
      StoreGroup(f, raw, out, src, dst);
      StepUnpacked(f, words, src);
      src, dst := src + WordsPerGroup(f), dst + PixelsPerGroup(f);
    }
    LastGroupUnpacked(f, words, src, count);
    assert raw[..count] == words[..count];
  }

  lemma NothingUnpacked(f: Format, raw: seq<Word>)
    ensures SampleCount(f, 0) == 0 && Unpacked(f, raw[..0]) == []
  {
    UnpackedLength(f, raw[..0]);
  }

  lemma SampleCountStep(f: Format, src: nat, count: nat)
    requires src + WordsPerGroup(f) <= count
    ensures SampleCount(f, src + WordsPerGroup(f)) == SampleCount(f, src) + PixelsPerGroup(f) <= SampleCount(f, count)
  {
  }

  /** A last incomplete group stores nothing. */
  lemma LastGroupUnpacked(f: Format, raw: seq<Word>, src: nat, count: nat)
    requires src <= count <= |raw| && src % WordsPerGroup(f) == 0 && count < src + WordsPerGroup(f)
    ensures SampleCount(f, src) == SampleCount(f, count) && Unpacked(f, raw[..src]) == Unpacked(f, raw[..count])
  {
    hide Samples;
    UnpackedLength(f, raw[..count]);
    UnpackedPrefix(f, raw[..count], src);
    assert raw[..count][..src] == raw[..src];
  }

  lemma OneGroup(f: Format, group: seq<Word>)
    requires |group| == WordsPerGroup(f)
    ensures Unpacked(f, group) == Samples(f, group[0], group[WordsPerGroup(f) - 1])
  {
    hide Samples;
    assert Unpacked(f, group[WordsPerGroup(f)..]) == [];
  }

  lemma StepUnpacked(f: Format, raw: seq<Word>, src: nat)
    requires src + WordsPerGroup(f) <= |raw| && src % WordsPerGroup(f) == 0
    ensures var next := src + WordsPerGroup(f);
            Unpacked(f, raw[..next]) == Unpacked(f, raw[..src]) + Samples(f, raw[src], raw[next - 1])
  {
    hide Samples;
    var next := src + WordsPerGroup(f);
    assert raw[..next] == raw[..src] + raw[src..next];
    UnpackedAppend(f, raw[..src], raw[src..next]);
    OneGroup(f, raw[src..next]);
  }

  /** `smi_unpack`: the unpacker is chosen by width, format and, for 9 and 18 bits, swap. */
  method SmiUnpack(c: Config, raw: array<Word>, out: array<Word>, count: nat) returns (r: int)
    requires raw != out && count <= raw.Length
    requires FormatOf(c.bank, true).Known? ==> SampleCount(FormatOf(c.bank, true).format, count) <= out.Length
    modifies out
    ensures r == if c.bank.rwidth > 3 then SMI_ERR_INVALID_WIDTH else SMI_OK
    ensures Stored(FormatOf(c.bank, true), raw[..count], old(out[..]), out[..])
  {
    match FormatOf(c.bank, true)
    case Unknown => r := SMI_ERR_INVALID_WIDTH;
    case Known(f) =>
      UnpackLoop(f, raw, out, count);
      r := SMI_OK;
  }

  /** `smi_truncate`: the unused upper bits of every word are dropped; an unknown width stores nothing. */
  method SmiTruncate(c: Config, raw: array<Word>, out: array<Word>, count: nat)
    requires raw != out && (c.bank.rwidth <= 3 ==> count <= raw.Length && count <= out.Length)
    modifies out
    ensures Stored(FormatOf(c.bank, false), raw[..Min(count, raw.Length)], old(out[..]), out[..])
  {
    match FormatOf(c.bank, false)
    case Unknown =>
    case Known(f) => UnpackLoop(f, raw, out, count);
  }

  /** The caller's buffer after unpacking `ws`: the samples, and nothing else touched. */
  ghost predicate Stored(l: Layout, ws: seq<Word>, before: seq<Word>, after: seq<Word>) {
    |after| == |before| &&
    match l
    case Unknown => after == before
    case Known(f) =>
      var n := SampleCount(f, |ws|);
      n <= |after| && after[..n] == Unpacked(f, ws) && after[n..] == before[n..]
  }

  // ----- The whole read -----

  /** The settings after the driver has written RWIDTH to the read device and WFORMAT, WSWAP to the write device. */
  function NewBanks(banks: seq<Bank>, c: Config): seq<Bank>
    requires |banks| == 4 && c.readDevice < 4 && c.writeDevice < 4
  {
    var b := banks[c.readDevice := banks[c.readDevice].(rwidth := c.bank.rwidth % 4)];
    b[c.writeDevice := b[c.writeDevice].(wformat := c.bank.wformat, wswap := c.bank.wswap)]
  }

  /**
   The hardware packs as the driver unpacks: the settings of the selected (read) device, some of which the driver
   writes to the write device instead, pick the same layout, and that layout is a documented one.
   */
  predicate SettingsReach(banks: seq<Bank>, c: Config)
    requires |banks| == 4 && c.readDevice < 4 && c.writeDevice < 4
  {
    var hw := NewBanks(banks, c)[c.readDevice];
    Documented(hw, c.pxldata) && FormatOf(hw, c.pxldata) == FormatOf(c.bank, c.pxldata)
  }

  /** What a caller can check: the devices, or the settings that the read device has already. */
  predicate SettingsInForce(banks: seq<Bank>, c: Config)
    requires |banks| == 4 && c.readDevice < 4 && c.writeDevice < 4
  {
    var b := banks[c.readDevice];
    !c.pxldata || c.writeDevice == c.readDevice || (b.wformat == c.bank.wformat && b.wswap == c.bank.wswap)
  }

  lemma SettingsReachIff(banks: seq<Bank>, c: Config)
    requires |banks| == 4 && c.readDevice < 4 && c.writeDevice < 4 && Documented(c.bank, c.pxldata)
    ensures SettingsReach(banks, c) <==> SettingsInForce(banks, c)
    ensures Understood(banks, c) <==> SettingsInForce(banks, c)
  {
  }

  method SelectSettings(dev: Smi, c: Config)
    requires Ok(dev.s) && !dev.s.active && c.readDevice < 4 && c.writeDevice < 4
    modifies dev`s
    ensures Ok(dev.s)
    ensures dev.s == old(dev.s).(device := c.readDevice, banks := NewBanks(old(dev.s.banks), c))
  {
    dev.SelectDevice(c.readDevice);
    dev.SetReadWidth(c.readDevice, c.bank.rwidth);
    dev.SetWriteFormat(c.writeDevice, c.bank.wformat, c.bank.wswap);
  }

  /** The CS assignments before the transfer; every stale flag and FIFO word is gone afterwards. */
  method ConfigureRead(dev: Smi, pxldata: bool)
    requires Ok(dev.s) && !dev.s.active
    modifies dev`s
    ensures Ok(dev.s)
    ensures dev.s == old(dev.s).(aferr := false, seterr := false, done := false, enable := true, write := false,
                                 pxldat := pxldata, rx := [], tx := [])
  {
    dev.SetIdleCs(Aferr, false);
    dev.SetIdleCs(Seterr, true);
    dev.SetIdleCs(Pxldat, pxldata);
    dev.SetIdleCs(Enable, true);
    dev.SetIdleCs(Write, false);
    dev.SetIdleCs(Clear, true);
  }

  /** The set-up registers of a read: the address, device and length asked for, and the settings as written. */
  ghost predicate SetUp(s: State, banks: seq<Bank>, c: Config, addr: nat, len: nat)
    requires |banks| == 4 && c.readDevice < 4 && c.writeDevice < 4
  {
    && s.enable && !s.write && s.pxldat == c.pxldata && s.banks == NewBanks(banks, c)
    && s.device == c.readDevice && s.address == addr % 64 && s.length == len
  }

  /** The device as the transfer starts: empty FIFOs, and `feed` fixed by the settings in force. */
  ghost predicate Started(dev: Smi, before: State, c: Config, addr: nat, len: nat)
    reads dev
    requires |before.banks| == 4 && c.readDevice < 4 && c.writeDevice < 4
  {
    var s := dev.s;
    && Ok(s) && s.active && s.rx == [] && s.captured == [] && !s.aferr && !s.done
    && SetUp(s, before.banks, c, addr, len)
    && s.feed == dev.Feed(s.banks[s.device], s.pxldat, len)
  }

  method StartRead(dev: Smi, c: Config, addr: nat, len: nat)
    requires Ok(dev.s) && !dev.s.active && c.readDevice < 4 && c.writeDevice < 4
    modifies dev`s
    ensures Started(dev, old(dev.s), c, addr, len)
  {
    SelectSettings(dev, c);
    ConfigureRead(dev, c.pxldata);
    dev.SetLength(len);
    dev.SetAddress(addr);
    dev.StartIdle();
  }

  lemma HardwareWordsLength(dev: Smi, f: Format, len: nat)
    requires !f.Rgb565x18Swap?
    ensures |dev.HardwareWords(f, len)| == WordCount(f, len)
  {
    WordsFitGroups(f, len);
    PackedLength(f, dev.Wire(f, len), dev.Noise(Groups(f, len) * WordsPerGroup(f)), Groups(f, len));
  }

  /** The settings match, and the layout is one whose packing is known. */
  predicate Understood(banks: seq<Bank>, c: Config)
    requires |banks| == 4 && c.readDevice < 4 && c.writeDevice < 4
  {
    SettingsReach(banks, c) && FormatOf(c.bank, c.pxldata).Known? && !FormatOf(c.bank, c.pxldata).format.Rgb565x18Swap?
  }

  /** From a fresh start, the words taken are the first words captured. */
  lemma TransferWords(s: State, t: State, taken: seq<Word>)
    requires s.rx == [] && s.captured == []
    requires Conserved(s, t, taken) || Abandoned(s, t, taken)
    ensures taken <= t.captured && SameSetup(s, t)
    ensures Conserved(s, t, taken) ==> taken + t.rx == t.captured
  {
    assert Stream(s, t) == t.captured;
  }

  /** START and the await loop: the words stored are the first words of the transfer, in order. */
  method ReadWords(dev: Smi, clock: Clock, raw: array<Word>, c: Config, addr: nat, len: nat)
      returns (r: int, ghost got: nat)
    requires Ok(dev.s) && !dev.s.active && c.readDevice < 4 && c.writeDevice < 4 && WordReads(c, len) <= raw.Length
    modifies dev, clock, raw
    ensures Ok(dev.s) && got <= WordReads(c, len) && r == if got == WordReads(c, len) then got else -SMI_ERR_TIMEOUT
    ensures raw[..got] <= dev.s.captured && forall i | got <= i < raw.Length :: raw[i] == old(raw[i])
    ensures SetUp(dev.s, old(dev.s.banks), c, addr, len)
    ensures PolledRead(old(dev.polls), dev.polls, old(clock.slept), clock.slept, WordReads(c, len), got, false)
    ensures got < WordReads(c, len) ==> clock.now >= old(clock.now) + PROG_READ_TIMEOUT_S * NS_PER_S
    ensures dev.s.feed == dev.Feed(NewBanks(old(dev.s.banks), c)[c.readDevice], c.pxldata, len)
    ensures got == WordReads(c, len) && Understood(old(dev.s.banks), c) ==>
              dev.s.rx == [] && raw[..got] == dev.HardwareWords(FormatOf(c.bank, c.pxldata).format, len)
  {
    hide Conserved, Abandoned, PolledRead, SettingsReach, FormatOf, WordReads, dev.HardwareWords, PackedRatio;
    ghost var before := dev.s;
    StartRead(dev, c, addr, len);
    ghost var s := dev.s;
    r, got := SmiReadAwait(dev, clock, raw, WordReads(c, len));
    TransferWords(s, dev.s, raw[..got]);
    if got == WordReads(c, len) && Understood(before.banks, c) {
      var f := FormatOf(c.bank, c.pxldata).format;
      FeedIsHardwareWords(dev, before.banks, c, len);
      HardwareWordsLength(dev, f, len);
      RatioMatchesUnpacker(c, len);
    }
  }

  lemma FeedIsHardwareWords(dev: Smi, banks: seq<Bank>, c: Config, len: nat)
    requires |banks| == 4 && c.readDevice < 4 && c.writeDevice < 4 && Understood(banks, c)
    ensures dev.Feed(NewBanks(banks, c)[c.readDevice], c.pxldata, len) ==
            dev.HardwareWords(FormatOf(c.bank, c.pxldata).format, len)
  {
    hide Packed, NewBanks, Groups, WordCount;
  }

  /** Slots of the caller that a completed read stores into: `len`, or whole groups when packed. */
  function SlotsNeeded(c: Config, len: nat): nat {
    match FormatOf(c.bank, c.pxldata)
    case Unknown => 0
    case Known(f) => SampleCount(f, WordCount(f, len))
  }

  /** When the unpacked read is to truncate `count` words, more than the caller's slots or the raw buffer have. */
  predicate TooMany(c: Config, count: int, raw: nat, slots: nat) {
    !c.pxldata && c.bank.rwidth <= 3 && (count > raw || count > slots)
  }

  /**
   `smi_programmed_read_arr`. `granted` is the allocator's answer if the raw buffer has to grow. On a timeout the
   result is +21, and the code goes on unpacking: all words of the buffer, or 21 words when not packed. `overrun`
   says that these 21 words do not fit, where the code has no defined behaviour and the model stops.
   */
  method SmiProgrammedReadArr(dev: Smi, clock: Clock, b: RawBuf, c: Config, out: array<Word>, addr: nat, len: nat,
                              granted: bool)
      returns (r: int, overrun: bool, ghost got: nat)
    requires Ok(dev.s) && !dev.s.active && c.readDevice < 4 && c.writeDevice < 4
    requires b.Valid() && b.buf != out && SlotsNeeded(c, len) <= out.Length
    modifies dev, clock, b, b.buf, out
    ensures Ok(dev.s) && b.Valid()
    ensures b.size == NextSize(old(b.size), Op.Reading(WordReads(c, len), granted))
    // The allocator refused: nothing was read.
    ensures WordReads(c, len) > b.size ==>
              && r == -1 && dev.s == old(dev.s) && dev.polls == old(dev.polls)
              && b.buf == old(b.buf) && out[..] == old(out[..])
    // Otherwise the words stored are the first words of the transfer, in order, packed as the selected device is set,
    ensures WordReads(c, len) <= b.size ==>
              && got <= WordReads(c, len) && r == (if got == WordReads(c, len) then got else -SMI_ERR_TIMEOUT)
              && b.buf[..got] <= dev.s.captured
              && dev.s.feed == dev.Feed(NewBanks(old(dev.s.banks), c)[c.readDevice], c.pxldata, len)
    // at the address asked for; the rest of the raw buffer is what it was;
    ensures WordReads(c, len) <= b.size ==> SetUp(dev.s, old(dev.s.banks), c, addr, len)
    ensures forall i | got <= i < old(b.size) :: i < b.size && b.buf[i] == old(b.buf[i])
    // a timeout is not before the deadline, and the polls and sleeps are those of the await loop,
    ensures WordReads(c, len) <= b.size ==>
              && PolledRead(old(dev.polls), dev.polls, old(clock.slept), clock.slept, WordReads(c, len), got, false)
              && (got < WordReads(c, len) ==> clock.now >= old(clock.now) + PROG_READ_TIMEOUT_S * NS_PER_S)
    // and the caller's buffer gets the unpacking of the raw buffer and no other change.
    ensures WordReads(c, len) <= b.size && !overrun ==>
              var words := if c.pxldata then WordReads(c, len) else Min(r, b.size);
              0 <= words && Stored(FormatOf(c.bank, c.pxldata), b.buf[..words], old(out[..]), out[..])
    // Only an unpacked read that has timed out can overrun, and does if 21 words do not fit.
    ensures overrun <==> && WordReads(c, len) <= b.size && got < WordReads(c, len) && !c.pxldata
                         && c.bank.rwidth <= 3 && -SMI_ERR_TIMEOUT > Min(b.size, out.Length)
    // A completed read under matching settings leaves no word behind and has stored all that the hardware packed.
    ensures WordReads(c, len) <= b.size && got == WordReads(c, len) && Understood(old(dev.s.banks), c) ==>
              dev.s.rx == [] && b.buf[..got] == dev.HardwareWords(FormatOf(c.bank, c.pxldata).format, len)
    // The caller has the samples the bus carried if and only if the format can carry each of them.
    ensures WordReads(c, len) <= b.size && got == WordReads(c, len) && Understood(old(dev.s.banks), c) ==>
              var f := FormatOf(c.bank, c.pxldata).format;
              && Kept(f, len) <= |dev.Wire(f, len)|
              && (Delivered(f, dev.Wire(f, len), len, old(out[..]), out[..]) <==>
                  Legal(f, dev.Wire(f, len)[..Kept(f, len)]))
  {
    hide Stored, SettingsReach, dev.HardwareWords, Delivered, Legal, PolledRead, Kept, SetUp;
    ghost var before, stale := dev.s.banks, out[..];
    r, overrun, got := -1, false, 0;
    var words := WordReads(c, len);
    var ok := b.Reserve(words, granted);
    if !ok {
      return;
    }
    r, got := ReadWords(dev, clock, b.buf, c, addr, len);
    var count := r;
    if TooMany(c, count, b.size, out.Length) {
      PlainSlots(c, len);
      overrun := true;
      return;
    }
    UnpackStage(c, b.buf, out, len, words, count);
    if got == words && Understood(before, c) {
      var f := FormatOf(c.bank, c.pxldata).format;
      StoredWordsDeliver(dev, f, len, stale, out[..]);
    }
  }

  lemma PlainSlots(c: Config, len: nat)
    requires !c.pxldata && c.bank.rwidth <= 3
    ensures SlotsNeeded(c, len) == WordReads(c, len) == len
  {
  }

  /**
   The caller's first `len` slots hold the samples on the wire; 16-bit XRGB with one sample in the last group
   leaves the last slot as it was.
   */
  predicate Delivered(f: Format, wire: seq<Word>, len: nat, before: seq<Word>, after: seq<Word>) {
    var n := Kept(f, len);
    && n <= |wire| && n <= |after| == |before|
    && after[..n] == wire[..n]
    && (LosesLast(f, len) ==> after[n..] == before[n..])
  }

  lemma StoredWordsDeliver(dev: Smi, f: Format, len: nat, before: seq<Word>, after: seq<Word>)
    requires !f.Rgb565x18Swap?
    requires Stored(Known(f), dev.HardwareWords(f, len), before, after)
    ensures Kept(f, len) <= |dev.Wire(f, len)|
    ensures Delivered(f, dev.Wire(f, len), len, before, after) <==> Legal(f, dev.Wire(f, len)[..Kept(f, len)])
  {
    hide Legal, AllFit, Packed, Unpacked, WordCount;
    WireFits(dev, f, len);
    var wire, noise := dev.Wire(f, len), dev.Noise(Groups(f, len) * WordsPerGroup(f));
    WireIsDelivered(f, wire, noise, len);
    SamplesCoverRequest(f, len);
    HardwareWordsLength(dev, f, len);
    var n := SampleCount(f, WordCount(f, len));
    assert after[..n][..Kept(f, len)] == after[..Kept(f, len)];
  }

  lemma WireFits(dev: Smi, f: Format, len: nat)
    ensures AllFit(f, dev.Wire(f, len))
  {
    hide BusMask, Masked, Complement;
    var wire := dev.Wire(f, len);
    forall i | 0 <= i < |wire|
      ensures Fits(f, wire[i])
    {
      MaskedFits(BusMask(f), dev.peripheral(i));
    }
  }

  /** Formats without replicated bits carry everything the bus can show. */
  lemma WireIsLegal(dev: Smi, f: Format, len: nat)
    requires !Replicates(f)
    ensures Legal(f, dev.Wire(f, len))
  {
    hide Fits;
    WireFits(dev, f, len);
    FitIsLegal(f, dev.Wire(f, len));
  }

  /** The last step of the read: unpack every word that was to be read, or truncate as many as were counted. */
  method UnpackStage(c: Config, raw: array<Word>, out: array<Word>, len: nat, words: nat, count: nat)
    requires raw != out && words == WordReads(c, len) && (count == words || count == -SMI_ERR_TIMEOUT)
    requires words <= raw.Length && !TooMany(c, count, raw.Length, out.Length) && SlotsNeeded(c, len) <= out.Length
    modifies out
    ensures var n := if c.pxldata then words else Min(count, raw.Length);
            Stored(FormatOf(c.bank, c.pxldata), raw[..n], old(out[..]), out[..])
  {
    hide Stored;
    if c.pxldata {
      var status := SmiUnpack(c, raw, out, words);
    } else {
      SmiTruncate(c, raw, out, count);
    }
  }
}
