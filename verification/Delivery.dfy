/** Exactly when a packed read hands its caller the samples the bus carried, whatever the peripheral drives. */
module Delivery {
  import opened Words
  import opened Packing
  import opened Streams
  import opened Device
  import opened Pipeline
  import opened Views

  /** From the FIFO words `fed`, a driver that unpacks with `g` gets `len` samples, those on the wire. */
  predicate GetsFrom(fed: seq<Word>, g: Format, wire: seq<Word>, len: nat) {
    && WordCount(g, len) <= |fed|
    && var s := Unpacked(g, fed[..WordCount(g, len)]);
       len <= |s| && len <= |wire| && s[..len] == wire[..len]
  }

  /** The same when the hardware packs with `f`. */
  predicate Gets(f: Format, g: Format, wire: seq<Word>, noise: seq<Word>, len: nat)
    requires !f.Rgb565x18Swap?
  {
    GetsFrom(Transferred(f, wire, noise, len), g, wire, len)
  }

  /** A peripheral's samples for `len` transfers, in whole groups, with as much noise as there are words. */
  predicate Presents(f: Format, wire: seq<Word>, noise: seq<Word>, len: nat) {
    && len <= |wire| == Groups(f, len) * PixelsPerGroup(f) && |noise| == Groups(f, len) * WordsPerGroup(f)
    && AllFit(f, wire)
  }

  /** The same, and the samples asked for are ones that the format can carry. */
  predicate Drives(f: Format, wire: seq<Word>, noise: seq<Word>, len: nat) {
    Presents(f, wire, noise, len) && Legal(f, wire[..len])
  }

  ghost predicate AlwaysDelivers(f: Format, g: Format, len: nat)
    requires !f.Rgb565x18Swap?
  {
    forall wire, noise | Drives(f, wire, noise, len) :: Gets(f, g, wire, noise, len)
  }

  /** The same without asking anything of the peripheral. */
  ghost predicate DeliversAnything(f: Format, g: Format, len: nat)
    requires !f.Rgb565x18Swap?
  {
    forall wire, noise | Presents(f, wire, noise, len) :: Gets(f, g, wire, noise, len)
  }

  /** A first sample that no other layout of the same bus width reads back. */
  function Telltale(f: Format): Word {
    if f.Rgb565x9Swap? || f.Rgb565x18? then 2 else 1
  }

  predicate Comparable(f: Format, g: Format) {
    !f.IsPlain() && !g.IsPlain() && !f.Rgb565x18Swap? && !g.Rgb565x18Swap? && BusMask(f) == BusMask(g)
  }

  lemma TelltaleWord(f: Format)
    requires !f.IsPlain() && !f.Rgb565x18Swap?
    ensures Place(f, Group(Telltale(f), 0, 0, 0)) ==
            match f
            case Rgb565x8 | Rgb565x9 | Xrgb16 => 0x100
            case Xrgb8 => 0x10000
            case Xrgb9 => 0x2000
            case Xrgb9Swap | Xrgb18 => 4
            case _ => 1
  {
  }

  lemma TelltaleIsMisread(f: Format, g: Format, w2: Word)
    requires Comparable(f, g) && f != g
    ensures Sample(g, 0, Place(f, Group(Telltale(f), 0, 0, 0)), w2) != Telltale(f)
  {
    TelltaleWord(f);
  }

  lemma NoJunk(f: Format, w: Word)
    ensures WithJunk(f, w, 0) == w
  {
  }

  function TelltaleWire(f: Format, len: nat): (wire: seq<Word>)
    requires len > 0
    ensures |wire| == Groups(f, len) * PixelsPerGroup(f) > 0 && wire[0] == Telltale(f)
  {
    var n := Groups(f, len) * PixelsPerGroup(f);
    WordsFitGroups(f, len);
    [Telltale(f)] + seq(n - 1, i => 0)
  }

  function Zeros(n: nat): (z: seq<Word>)
    ensures |z| == n && forall i :: 0 <= i < n ==> z[i] == 0
  {
    seq(n, i => 0)
  }

  lemma TelltaleDrives(f: Format, len: nat)
    requires len > 0 && !f.IsPlain() && !f.Rgb565x18Swap?
    ensures Drives(f, TelltaleWire(f, len), Zeros(Groups(f, len) * WordsPerGroup(f)), len)
  {
    hide LegalSample, Telltale, Fits, Groups;
    var wire := TelltaleWire(f, len);
    WordsFitGroups(f, len);
    forall i | 0 <= i < |wire|
      ensures LegalSample(f, i, wire[i])
    {
      assert wire[i] == if i == 0 then Telltale(f) else 0;
      TelltaleIsLegal(f, i);
    }
    LegalIsFit(f, wire);
  }

  lemma TelltaleIsLegal(f: Format, i: nat)
    requires !f.IsPlain() && !f.Rgb565x18Swap?
    ensures LegalSample(f, i, 0) && (i == 0 ==> LegalSample(f, i, Telltale(f)))
  {
  }

  /** The first word that the telltale peripheral puts into the FIFO. */
  lemma TelltaleFirstWord(f: Format, len: nat)
    requires len > 0 && !f.IsPlain() && !f.Rgb565x18Swap?
    ensures var words := Packed(f, TelltaleWire(f, len), Zeros(Groups(f, len) * WordsPerGroup(f)));
            |words| > 0 && words[0] == Place(f, Group(Telltale(f), 0, 0, 0))
  {
    hide Place, Telltale, WithJunk;
    WordsFitGroups(f, len);
    var wire, noise := TelltaleWire(f, len), Zeros(Groups(f, len) * WordsPerGroup(f));
    assert GroupAt(f, wire) == Group(Telltale(f), 0, 0, 0);
    NoJunk(f, Place(f, GroupAt(f, wire)));
  }

  lemma TelltaleIsNotGot(f: Format, g: Format, ws: seq<Word>)
    requires Comparable(f, g) && f != g
    requires Unpacked(g, ws) != [] && ws[0] == Place(f, Group(Telltale(f), 0, 0, 0))
    ensures Unpacked(g, ws)[0] != Telltale(f)
  {
    hide Sample, Place, BusMask, Telltale;
    TelltaleIsMisread(f, g, ws[WordsPerGroup(g) - 1]);
    assert Unpacked(g, ws)[0] == Sample(g, 0, ws[0], ws[WordsPerGroup(g) - 1]);
  }

  lemma MismatchIsSeen(f: Format, g: Format, len: nat)
    requires len > 0 && Comparable(f, g) && f != g
    ensures !AlwaysDelivers(f, g, len)
  {
    hide Gets, Drives, Telltale, TelltaleWire, Zeros, WordsPerGroup, Groups, BusMask;
    TelltaleDrives(f, len);
    TelltaleIsLost(f, g, len);
  }

  lemma TelltaleIsLost(f: Format, g: Format, len: nat)
    requires len > 0 && Comparable(f, g) && f != g
    ensures !Gets(f, g, TelltaleWire(f, len), Zeros(Groups(f, len) * WordsPerGroup(f)), len)
  {
    hide Sample, Place, Packed, Unpacked, Telltale, TelltaleWire, Zeros, BusMask, WordCount, Groups;
    var wire, noise := TelltaleWire(f, len), Zeros(Groups(f, len) * WordsPerGroup(f));
    TelltaleFirstWord(f, len);
    if Gets(f, g, wire, noise, len) {
      var read := Transferred(f, wire, noise, len)[..WordCount(g, len)];
      assert Unpacked(g, read)[..len][0] == wire[..len][0];
      UnpackedNonempty(g, read);
      TelltaleIsNotGot(f, g, read);
    }
  }

  lemma UnpackedNonempty(g: Format, ws: seq<Word>)
    requires Unpacked(g, ws) != []
    ensures ws != []
  {
  }

  /** With one layout on both sides, exactly the peripherals that drive what the format can carry are understood. */
  lemma MatchGetsIff(f: Format, wire: seq<Word>, noise: seq<Word>, len: nat)
    requires !f.Rgb565x18Swap? && Presents(f, wire, noise, len)
    ensures Gets(f, f, wire, noise, len) <==> !LosesLast(f, len) && Legal(f, wire[..len])
  {
    hide Packed, Unpacked, Legal, AllFit;
    WireIsDelivered(f, wire, noise, len);
    SamplesCoverRequest(f, len);
    var words := Packed(f, wire, noise);
    assert words[..WordCount(f, len)][..WordCount(f, len)] == words[..WordCount(f, len)];
  }

  /**
   A packed read of `len` samples delivers what the bus carried, for every peripheral that drives what the format can
   carry and every content of the undefined bits, if and only if the layout in force at the selected device is the
   one the driver unpacks, and the transfer does not end with a single sample in a 16-bit XRGB group.
   */
  lemma DeliversIff(f: Format, g: Format, len: nat)
    requires len > 0 && Comparable(f, g)
    ensures AlwaysDelivers(f, g, len) <==> f == g && !LosesLast(g, len)
  {
    hide Gets, Presents, Legal, BusMask, LosesLast, Groups, TelltaleWire, Zeros;
    if f != g {
      MismatchIsSeen(f, g, len);
    } else {
      TelltaleDrives(f, len);
      MatchGetsIff(f, TelltaleWire(f, len), Zeros(Groups(f, len) * WordsPerGroup(f)), len);
      if !LosesLast(f, len) {
        SameLayoutDelivers(f, len);
      }
    }
  }

  lemma SameLayoutDelivers(f: Format, len: nat)
    requires !f.Rgb565x18Swap? && !LosesLast(f, len)
    ensures AlwaysDelivers(f, f, len)
  {
    hide Gets, Presents, Legal, LosesLast;
    forall wire, noise | Drives(f, wire, noise, len)
      ensures Gets(f, f, wire, noise, len)
    {
      MatchGetsIff(f, wire, noise, len);
    }
  }

  // ----- Peripherals that drive anything -----

  /** A first sample without the replicated bits. */
  function Unreplicated(f: Format): Word { if f.Rgb565x9? then 8 else 1 }

  lemma UnreplicatedIsLost(f: Format, len: nat)
    requires len > 0 && Replicates(f)
    ensures !DeliversAnything(f, f, len)
  {
    hide Gets, Legal, LegalSample, Fits, Unreplicated, Groups;
    WordsFitGroups(f, len);
    var n := Groups(f, len) * PixelsPerGroup(f);
    var wire, noise := [Unreplicated(f)] + Zeros(n - 1), Zeros(Groups(f, len) * WordsPerGroup(f));
    UnreplicatedFits(f);
    assert AllFit(f, wire);
    MatchGetsIff(f, wire, noise, len);
    FirstIsIllegal(f, wire[..len]);
  }

  lemma UnreplicatedFits(f: Format)
    requires Replicates(f)
    ensures Fits(f, Unreplicated(f)) && Fits(f, 0) && !LegalSample(f, 0, Unreplicated(f))
  {
  }

  lemma FirstIsIllegal(f: Format, s: seq<Word>)
    requires s != [] && !LegalSample(f, 0, s[0])
    ensures !Legal(f, s)
  {
    hide LegalSample;
  }

  /** And if the peripheral may drive anything: also only in the formats that do not replicate bits. */
  lemma DeliversAnythingIff(f: Format, g: Format, len: nat)
    requires len > 0 && Comparable(f, g)
    ensures DeliversAnything(f, g, len) <==> f == g && !LosesLast(g, len) && !Replicates(g)
  {
    hide Gets, Presents, Legal, BusMask, LosesLast;
    DeliversIff(f, g, len);
    if f == g && Replicates(g) {
      UnreplicatedIsLost(f, len);
    } else if f == g && !LosesLast(g, len) {
      forall wire, noise | Presents(f, wire, noise, len)
        ensures Gets(f, f, wire, noise, len)
      {
        PresentsLegal(f, wire, noise, len);
        MatchGetsIff(f, wire, noise, len);
      }
    }
  }

  lemma PresentsLegal(f: Format, wire: seq<Word>, noise: seq<Word>, len: nat)
    requires Presents(f, wire, noise, len) && !Replicates(f)
    ensures Legal(f, wire[..len])
  {
    hide Fits, LegalSample;
    FitIsLegal(f, wire);
  }

  // ----- The settings of a read -----

  /**
   At 9 bits WSWAP exchanges neighbours; without it, samples joined two by two are the 18-bit samples of the same
   pixel format, the earlier sample high.
   */
  lemma NineBitSettings(b: Bank, ws: seq<Word>)
    requires b.rwidth == SMI_9_BITS
    ensures var plain, swapped := FormatOf(b.(wswap := false), true), FormatOf(b.(wswap := true), true);
            && plain.Known? && swapped.Known?
            && Unpacked(swapped.format, ws) == Swapped(Unpacked(plain.format, ws))
            && var joined := Paired(Join9, Unpacked(plain.format, ws));
               if b.wformat then joined == Unpacked(Xrgb18, ws)
               else
                 var wide := Unpacked(Rgb565x18, ws);
                 |joined| == |wide| && forall i | 0 <= i < |wide| :: SameOutside(REPLICATED, joined[i], wide[i])
  {
    hide Unpacked, Paired, Swapped, SameOutside;
    SwapExchangesNeighbours(if b.wformat then Xrgb9Swap else Rgb565x9Swap, ws);
    if b.wformat {
      XrgbPairs9To18(ws);
    } else {
      Rgb565Pairs9To18(ws);
    }
  }

  /** The FIFO words under the settings `hw`: under undocumented ones, anything. */
  function Fed(hw: Bank, packed: bool, wire: seq<Word>, noise: seq<Word>, unknown: seq<Word>, len: nat): seq<Word> {
    if Documented(hw, packed) then Transferred(FormatOf(hw, packed).format, wire, noise, len) else unknown
  }

  /** What the peripheral may drive under the settings `hw`. */
  predicate MayDrive(hw: Bank, packed: bool, wire: seq<Word>, noise: seq<Word>, len: nat) {
    if Documented(hw, packed) then Drives(FormatOf(hw, packed).format, wire, noise, len) else len <= |wire|
  }

  lemma FedIsFeed(dev: Smi, hw: Bank, packed: bool, len: nat)
    requires Documented(hw, packed)
    ensures var f := FormatOf(hw, packed).format;
            dev.Feed(hw, packed, len) ==
            Fed(hw, packed, dev.Wire(f, len), dev.Noise(Groups(f, len) * WordsPerGroup(f)), dev.unknown, len)
  {
  }

  /**
   The samples of a read with the settings `c`, on a device whose banks are as given before, are right for every
   peripheral, every content of undefined bits, and whatever the hardware does under undocumented settings.
   */
  ghost predicate ReadAlwaysDelivers(banks: seq<Bank>, c: Config, len: nat)
    requires |banks| == 4 && c.readDevice < 4 && c.writeDevice < 4 && Documented(c.bank, c.pxldata)
  {
    var hw := NewBanks(banks, c)[c.readDevice];
    var g := FormatOf(c.bank, c.pxldata).format;
    forall wire, noise, unknown | MayDrive(hw, c.pxldata, wire, noise, len) ::
      GetsFrom(Fed(hw, c.pxldata, wire, noise, unknown, len), g, wire, len)
  }

  /** With undocumented settings the hardware may feed nothing at all. */
  lemma UndocumentedIsLost(banks: seq<Bank>, c: Config, len: nat)
    requires |banks| == 4 && c.readDevice < 4 && c.writeDevice < 4 && Documented(c.bank, c.pxldata) && len > 0
    requires !Documented(NewBanks(banks, c)[c.readDevice], c.pxldata)
    ensures !ReadAlwaysDelivers(banks, c, len)
  {
    hide Documented, FormatOf, Transferred;
    var hw := NewBanks(banks, c)[c.readDevice];
    var wire: seq<Word>, none: seq<Word> := Zeros(len), [];
    assert MayDrive(hw, c.pxldata, wire, none, len) && Fed(hw, c.pxldata, wire, none, none, len) == none;
    assert !GetsFrom(none, FormatOf(c.bank, c.pxldata).format, wire, len);
  }

  lemma DocumentedAlwaysIff(banks: seq<Bank>, c: Config, len: nat)
    requires |banks| == 4 && c.readDevice < 4 && c.writeDevice < 4 && Documented(c.bank, c.pxldata)
    requires Documented(NewBanks(banks, c)[c.readDevice], c.pxldata)
    ensures var hw := NewBanks(banks, c)[c.readDevice];
            ReadAlwaysDelivers(banks, c, len) <==>
              AlwaysDelivers(FormatOf(hw, c.pxldata).format, FormatOf(c.bank, c.pxldata).format, len)
  {
    hide Documented, FormatOf, Transferred, GetsFrom, Drives;
    var hw := NewBanks(banks, c)[c.readDevice];
    var f, g := FormatOf(hw, c.pxldata).format, FormatOf(c.bank, c.pxldata).format;
    if ReadAlwaysDelivers(banks, c, len) {
      forall wire, noise | Drives(f, wire, noise, len)
        ensures Gets(f, g, wire, noise, len)
      {
        assert MayDrive(hw, c.pxldata, wire, noise, len);
        assert GetsFrom(Fed(hw, c.pxldata, wire, noise, [], len), g, wire, len);
      }
    }
    if AlwaysDelivers(f, g, len) {
      forall wire, noise, unknown | MayDrive(hw, c.pxldata, wire, noise, len)
        ensures GetsFrom(Fed(hw, c.pxldata, wire, noise, unknown, len), g, wire, len)
      {
        assert Gets(f, g, wire, noise, len);
      }
    }
  }

  lemma SameWidthIsComparable(a: Bank, b: Bank)
    requires Documented(a, true) && Documented(b, true) && a.rwidth == b.rwidth
    ensures Comparable(FormatOf(a, true).format, FormatOf(b, true).format)
  {
    hide FormatOf, BusMask, Documented;
    SelectsTheOne(a, true, FormatOf(a, true).format);
    SelectsTheOne(b, true, FormatOf(b, true).format);
  }

  /**
   A read delivers for every peripheral if and only if the transfer does not lose its last sample and it is not
   packed, or reads and writes use the same device, or the read device has the pixel format and swap asked for.
   */
  lemma ReadDeliversIff(banks: seq<Bank>, c: Config, len: nat)
    requires |banks| == 4 && c.readDevice < 4 && c.writeDevice < 4 && Documented(c.bank, c.pxldata) && len > 0
    ensures FormatOf(c.bank, c.pxldata).Known?
    ensures ReadAlwaysDelivers(banks, c, len) <==>
              SettingsInForce(banks, c) && !LosesLast(FormatOf(c.bank, c.pxldata).format, len)
  {
    hide AlwaysDelivers, ReadAlwaysDelivers, Documented, FormatOf, Comparable, LosesLast, SettingsInForce;
    var hw := NewBanks(banks, c)[c.readDevice];
    SettingsReachIff(banks, c);
    SameWidth(banks, c);
    if !Documented(hw, c.pxldata) {
      UndocumentedIsLost(banks, c, len);
    } else {
      DocumentedAlwaysIff(banks, c, len);
      if c.pxldata {
        SameWidthIsComparable(hw, c.bank);
        DeliversIff(FormatOf(hw, c.pxldata).format, FormatOf(c.bank, c.pxldata).format, len);
      } else {
        SamePlain(hw, c.bank);
        SelectsTheOne(hw, false, FormatOf(hw, false).format);
        PlainDelivers(FormatOf(hw, false).format, len);
      }
    }
  }

  lemma SameWidth(banks: seq<Bank>, c: Config)
    requires |banks| == 4 && c.readDevice < 4 && c.writeDevice < 4 && Documented(c.bank, c.pxldata)
    ensures NewBanks(banks, c)[c.readDevice].rwidth == c.bank.rwidth
  {
  }

  lemma SamePlain(a: Bank, b: Bank)
    requires a.rwidth == b.rwidth
    ensures FormatOf(a, false) == FormatOf(b, false)
  {
  }

  lemma PlainDelivers(f: Format, len: nat)
    requires f.IsPlain()
    ensures AlwaysDelivers(f, f, len) && !LosesLast(f, len)
  {
    SameLayoutDelivers(f, len);
  }

  /**
   What `Gets` says of a completed `SmiProgrammedReadArr`, whose raw buffer holds the first words of the feed: the
   caller's buffer has the samples on the wire.
   */
  lemma GetsIsWhatTheCallerHas(dev: Smi, hw: Bank, packed: bool, g: Format, len: nat, raw: seq<Word>,
                               before: seq<Word>, after: seq<Word>)
    requires Documented(hw, packed)
    requires raw <= dev.Feed(hw, packed, len) && |raw| == WordCount(g, len) && !LosesLast(g, len)
    requires Stored(Known(g), raw, before, after)
    ensures var f := FormatOf(hw, packed).format; var wire := dev.Wire(f, len);
            len <= |wire| && len <= |after| &&
            (Gets(f, g, wire, dev.Noise(Groups(f, len) * WordsPerGroup(f)), len) <==> after[..len] == wire[..len])
  {
    hide Packed, Unpacked, WordCount, Groups, LosesLast, Documented, FormatOf;
    var f := FormatOf(hw, packed).format;
    WordsFitGroups(f, len);
    SamplesCoverRequest(g, len);
    var n := SampleCount(g, |raw|);
    assert after[..n][..len] == after[..len];
    assert raw == dev.Feed(hw, packed, len)[..WordCount(g, len)];
  }
}
