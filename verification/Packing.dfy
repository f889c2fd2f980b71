/**
 The sample formats of the SMI FIFO: how bus samples sit in 32-bit FIFO words, and how the driver takes them out again.
 `Sample` is the driver's side (one store of an unpack loop of src/smi.c); `Place` is the hardware's side, with
 every bit that the format leaves undefined taken from `junk`.
 */
module Packing {
  import opened Words

  /** The unpack functions of src/smi.c by pixel format and bus width; `Plain` is an unpacked transfer. */
  datatype Format =
    | Rgb565x8 | Rgb565x9 | Rgb565x9Swap | Rgb565x16 | Rgb565x18 | Rgb565x18Swap
    | Xrgb8 | Xrgb9 | Xrgb9Swap | Xrgb16 | Xrgb18
    | Plain8 | Plain9 | Plain16 | Plain18
  {
    predicate IsPlain() { Plain8? || Plain9? || Plain16? || Plain18? }
  }

  /** FIFO words consumed by one step of the unpack loop. */
  function WordsPerGroup(f: Format): nat {
    if f.Xrgb16? then 2 else 1
  }

  /** Samples produced by one step of the unpack loop. */
  function PixelsPerGroup(f: Format): nat {
    match f
    case Rgb565x8 | Rgb565x9 | Rgb565x9Swap => 4
    case Xrgb8 | Xrgb16 => 3
    case Rgb565x16 | Rgb565x18 | Rgb565x18Swap | Xrgb9 | Xrgb9Swap => 2
    case Xrgb18 | Plain8 | Plain9 | Plain16 | Plain18 => 1
  }

  /** The data lines of the bus in use. */
  function BusMask(f: Format): Word {
    match f
    case Rgb565x8 | Xrgb8 | Plain8 => 0xFF
    case Rgb565x9 | Rgb565x9Swap | Xrgb9 | Xrgb9Swap | Plain9 => 0x1FF
    case Rgb565x16 | Xrgb16 | Plain16 => 0xFFFF
    case Rgb565x18 | Rgb565x18Swap | Xrgb18 | Plain18 => 0x3FFFF
  }

  /** The caller's buffer elements: uint8_t, uint16_t or uint32_t. */
  function SlotMask(f: Format): Word {
    match f
    case Rgb565x8 | Xrgb8 | Plain8 => 0xFF
    case Rgb565x9 | Rgb565x9Swap | Xrgb9 | Xrgb9Swap | Plain9 | Rgb565x16 | Xrgb16 | Plain16 => 0xFFFF
    case Rgb565x18 | Rgb565x18Swap | Xrgb18 | Plain18 => 0xFFFF_FFFF
  }

  // ----- The driver's side -----

  function Byte(w: Word, i: nat): Word
    requires i < 4
  {
    match i case 0 => w & 0xFF case 1 => (w >> 8) & 0xFF case 2 => (w >> 16) & 0xFF case 3 => (w >> 24) & 0xFF
  }

  function Half(w: Word, i: nat): Word
    requires i < 2
  {
    if i == 0 then w & 0xFFFF else (w >> 16) & 0xFFFF
  }

  /** Two 9-bit samples from 16 bits of RGB565; bits 3 and 0 are the replicated ones. */
  function High9(b: Word): Word { ((b << 1) & 0x1F0) | ((b >> 2) & 0x8) | (b & 0x7) }
  function Low9(b: Word): Word { (b << 1) | ((b >> 7) & 0x1) }

  function To18(w: Word): Word { ((w << 2) & 0x3E000) | ((w >> 3) & 0x1000) | ((w << 1) & 0xFFE) }

  function Xrgb9High(w: Word): Word { ((w >> 13) & 0x7) | ((w >> 15) & 0x1F8) }
  function Xrgb9Low(w: Word): Word { ((w >> 2) & 0x3F) | ((w >> 4) & 0x1C0) }
  function Xrgb18Of(w: Word): Word { ((w >> 2) & 0x3F) | ((w >> 4) & 0xFC0) | ((w >> 6) & 0x3F000) }

  function Reverse18(v: Word): Word {
    var v1 := ((v & 0x15555) << 1) | ((v & 0x2AAAA) >> 1);
    var v2 := ((v1 & 0x03333) << 2) | ((v1 & 0x0CCCC) >> 2);
    var v3 := ((v2 & 0x00F0F) << 4) | ((v2 & 0x0F0F0) >> 4);
    ((v3 & 0x000FF) << 8) | ((v3 & 0x3FC00) >> 8)
  }

  /** The first sample of a 16-bit XRGB pair, and the second, which straddles its two words. */
  function Mid16(w: Word): Word { (w >> 8) & 0xFFFF }
  function Straddle(w: Word, w2: Word): Word { ((w << 8) & 0xFF00) | ((w2 >> 16) & 0x00FF) }

  function Masked(w: Word, mask: Word): Word { w & mask }
  function Complement(mask: Word): Word { !mask }
  function Merged(junk: Word, mask: Word, w: Word): Word { (junk & mask) | w }

  function Truncated(f: Format, w: Word): Word { Masked(w, BusMask(f)) }

  /** The `j`-th sample that one loop step takes from the words `w` and, for 16-bit XRGB only, `w2`. */
  function Sample(f: Format, j: nat, w: Word, w2: Word): Word
    requires j < PixelsPerGroup(f)
  {
    match f
    case Rgb565x8 => Byte(w, match j case 0 => 1 case 1 => 0 case 2 => 3 case _ => 2)
    case Rgb565x9 => (match j
      case 0 => High9(Byte(w, 1))
      case 1 => Low9(Byte(w, 0))
      case 2 => High9(Byte(w, 3))
      case _ => Low9(Byte(w, 2)))
    case Rgb565x9Swap => (match j
      case 0 => Low9(Byte(w, 0))
      case 1 => High9(Byte(w, 1))
      case 2 => Low9(Byte(w, 2))
      case _ => High9(Byte(w, 3)))
    case Rgb565x16 => Half(w, j)
    case Rgb565x18 => To18(Half(w, j))
    case Rgb565x18Swap => To18(Reverse18(Half(w, j)))
    case Xrgb8 => Byte(w, 2 - j)
    case Xrgb9 => if j == 0 then Xrgb9High(w) else Xrgb9Low(w)
    case Xrgb9Swap => if j == 0 then Xrgb9Low(w) else Xrgb9High(w)
    case Xrgb16 => (match j
      case 0 => Mid16(w)
      case 1 => Straddle(w, w2)
      case _ => Half(w2, 0))
    case Xrgb18 => Xrgb18Of(w)
    case Plain8 | Plain9 | Plain16 | Plain18 => Truncated(f, w)
  }

  // ----- The hardware's side -----

  /** The samples of one group; those beyond `PixelsPerGroup` are not used. */
  datatype Group = Group(s0: Word, s1: Word, s2: Word, s3: Word) {
    function At(j: nat): Word { match j case 0 => s0 case 1 => s1 case 2 => s2 case _ => s3 }
  }

  function Bytes(b3: Word, b2: Word, b1: Word, b0: Word): Word { (b3 << 24) | (b2 << 16) | (b1 << 8) | b0 }
  function Halves(high: Word, low: Word): Word { (high << 16) | low }
  function From9(high: Word, low: Word): Word { ((((high >> 1) & 0xF8) | (high & 0x7)) << 8) | ((low >> 1) & 0xFF) }
  function From18(s: Word): Word { ((s >> 2) & 0xF800) | ((s >> 1) & 0x7FF) }
  function FromXrgb9(high: Word, low: Word): Word {
    ((high & 0x1F8) << 15) | ((high & 0x7) << 13) | ((low & 0x1C0) << 4) | ((low & 0x3F) << 2)
  }
  function FromXrgb18(s: Word): Word { ((s & 0x3F000) << 6) | ((s & 0xFC0) << 4) | ((s & 0x3F) << 2) }

  function First24(s0: Word, s1: Word): Word { (s0 << 8) | (s1 >> 8) }
  function Second24(s1: Word, s2: Word): Word { ((s1 & 0xFF) << 16) | s2 }

  /** The bits of a word that carry no sample. */
  function JunkMask(f: Format): Word {
    match f
    case Xrgb8 | Xrgb16 => 0xFF000000
    case Xrgb9 | Xrgb9Swap | Xrgb18 => 0xFF030303
    case Plain8 | Plain9 | Plain16 | Plain18 => Complement(BusMask(f))
    case _ => 0
  }

  /** The sample bits of the first (or only) word of a group. The 18-bit RGB565 swap layout is not known. */
  function Place(f: Format, g: Group): Word
    requires !f.Rgb565x18Swap?
  {
    match f
    case Rgb565x8 => Bytes(g.s2, g.s3, g.s0, g.s1)
    case Rgb565x9 => Halves(From9(g.s2, g.s3), From9(g.s0, g.s1))
    case Rgb565x9Swap => Halves(From9(g.s3, g.s2), From9(g.s1, g.s0))
    case Rgb565x16 => Halves(g.s1, g.s0)
    case Rgb565x18 => Halves(From18(g.s1), From18(g.s0))
    case Xrgb8 => Bytes(0, g.s0, g.s1, g.s2)
    case Xrgb9 => FromXrgb9(g.s0, g.s1)
    case Xrgb9Swap => FromXrgb9(g.s1, g.s0)
    case Xrgb16 => First24(g.s0, g.s1)
    case Xrgb18 => FromXrgb18(g.s0)
    case Plain8 | Plain9 | Plain16 | Plain18 => g.s0
  }

  /** The sample bits of the second word of a 16-bit XRGB group. */
  function Place2(g: Group): Word { Second24(g.s1, g.s2) }

  function WithJunk(f: Format, w: Word, junk: Word): Word { Merged(junk, JunkMask(f), w) }

  // ----- Samples a format can carry: they fit the bus, and replicated bits repeat what src/smi.c repeats -----

  predicate Fits(f: Format, s: Word) { Masked(s, Complement(BusMask(f))) == 0 }
  predicate LegalHigh9(s: Word) { s & !0x1FF == 0 && (s >> 3) & 1 == (s >> 6) & 1 }
  predicate LegalLow9(s: Word) { s & !0x1FF == 0 && s & 1 == (s >> 8) & 1 }
  predicate Legal18(s: Word) { s & !0x3FFFF == 0 && (s >> 12) & 1 == (s >> 17) & 1 && s & 1 == 0 }

  /** Whether the format can carry `s` as the `i`-th sample of a transfer. */
  predicate LegalSample(f: Format, i: nat, s: Word) {
    match f
    case Rgb565x9 => if i % 2 == 0 then LegalHigh9(s) else LegalLow9(s)
    case Rgb565x9Swap => if i % 2 == 0 then LegalLow9(s) else LegalHigh9(s)
    case Rgb565x18 => Legal18(s)
    case _ => Fits(f, s)
  }

  /** The samples of a group, all of which fit the bus. */
  predicate FitGroup(f: Format, g: Group) {
    var n := PixelsPerGroup(f);
    Fits(f, g.s0) && (n > 1 ==> Fits(f, g.s1)) && (n > 2 ==> Fits(f, g.s2)) && (n > 3 ==> Fits(f, g.s3))
  }

  // ----- Field by field: what is packed is unpacked, whatever the undefined bits hold -----

  lemma BytesUnpack(b3: Word, b2: Word, b1: Word, b0: Word)
    requires Fits(Rgb565x8, b3) && Fits(Rgb565x8, b2) && Fits(Rgb565x8, b1) && Fits(Rgb565x8, b0)
    ensures var w := Bytes(b3, b2, b1, b0);
            Byte(w, 3) == b3 && Byte(w, 2) == b2 && Byte(w, 1) == b1 && Byte(w, 0) == b0
  {
  }

  lemma XrgbBytesUnpack(b2: Word, b1: Word, b0: Word, junk: Word)
    requires Fits(Xrgb8, b2) && Fits(Xrgb8, b1) && Fits(Xrgb8, b0)
    ensures var w := WithJunk(Xrgb8, Bytes(0, b2, b1, b0), junk);
            Byte(w, 2) == b2 && Byte(w, 1) == b1 && Byte(w, 0) == b0
  {
  }

  lemma From9Unpack3(h1: Word, l1: Word, h0: Word, l0: Word)
    requires LegalHigh9(h1)
    ensures High9(Byte(Halves(From9(h1, l1), From9(h0, l0)), 3)) == h1
  {
  }

  lemma From9Unpack2(h1: Word, l1: Word, h0: Word, l0: Word)
    requires LegalLow9(l1)
    ensures Low9(Byte(Halves(From9(h1, l1), From9(h0, l0)), 2)) == l1
  {
  }

  lemma From9Unpack1(h1: Word, l1: Word, h0: Word, l0: Word)
    requires LegalHigh9(h0)
    ensures High9(Byte(Halves(From9(h1, l1), From9(h0, l0)), 1)) == h0
  {
  }

  lemma From9Unpack0(h1: Word, l1: Word, h0: Word, l0: Word)
    requires LegalLow9(l0)
    ensures Low9(Byte(Halves(From9(h1, l1), From9(h0, l0)), 0)) == l0
  {
  }

  lemma From18Unpack1(s1: Word, s0: Word)
    requires Legal18(s1)
    ensures To18(Half(Halves(From18(s1), From18(s0)), 1)) == s1
  {
  }

  lemma From18Unpack0(s1: Word, s0: Word)
    requires Legal18(s0)
    ensures To18(Half(Halves(From18(s1), From18(s0)), 0)) == s0
  {
  }

  lemma HalvesUnpack(high: Word, low: Word)
    requires Fits(Rgb565x16, high) && Fits(Rgb565x16, low)
    ensures Half(Halves(high, low), 1) == high && Half(Halves(high, low), 0) == low
  {
  }

  lemma FromXrgb9Unpack(f: Format, high: Word, low: Word, junk: Word)
    requires (f.Xrgb9? || f.Xrgb9Swap?) && Fits(f, high) && Fits(f, low)
    ensures var w := WithJunk(f, FromXrgb9(high, low), junk); Xrgb9High(w) == high && Xrgb9Low(w) == low
  {
  }

  lemma FromXrgb18Unpack(s: Word, junk: Word)
    requires Fits(Xrgb18, s)
    ensures Xrgb18Of(WithJunk(Xrgb18, FromXrgb18(s), junk)) == s
  {
  }

  lemma Xrgb16Unpack(s0: Word, s1: Word, s2: Word, junk: Word, junk2: Word)
    requires Fits(Xrgb16, s0) && Fits(Xrgb16, s1) && Fits(Xrgb16, s2)
    ensures var w, w2 := WithJunk(Xrgb16, First24(s0, s1), junk), WithJunk(Xrgb16, Second24(s1, s2), junk2);
            Mid16(w) == s0 && Straddle(w, w2) == s1 && Half(w2, 0) == s2
  {
  }

  lemma MaskedUnpack(mask: Word, s: Word, junk: Word)
    requires Masked(s, Complement(mask)) == 0
    ensures Masked(Merged(junk, Complement(mask), s), mask) == s
  {
  }

  lemma PlainUnpack(f: Format, s: Word, junk: Word)
    requires f.IsPlain() && Fits(f, s)
    ensures Truncated(f, WithJunk(f, s, junk)) == s
  {
    hide BusMask, Masked, Complement, Merged;
    MaskedUnpack(BusMask(f), s, junk);
  }

  predicate IsRgb565(f: Format) {
    f.Rgb565x8? || f.Rgb565x9? || f.Rgb565x9Swap? || f.Rgb565x16? || f.Rgb565x18?
  }

  predicate IsXrgb(f: Format) {
    f.Xrgb8? || f.Xrgb9? || f.Xrgb9Swap? || f.Xrgb16? || f.Xrgb18?
  }

  lemma Rgb565HasNoJunk(f: Format, w: Word, junk: Word)
    requires IsRgb565(f)
    ensures WithJunk(f, w, junk) == w
  {
  }

  lemma SampleOfPlaceBytes(f: Format, j: nat, g: Group, junk: Word, w2: Word)
    requires (f.Rgb565x8? || f.Xrgb8?) && j < PixelsPerGroup(f) && FitGroup(f, g)
    ensures Sample(f, j, WithJunk(f, Place(f, g), junk), w2) == g.At(j)
  {
    hide Byte, Bytes, WithJunk, Fits;
    if f.Rgb565x8? {
      Rgb565HasNoJunk(f, Place(f, g), junk);
      BytesUnpack(g.s2, g.s3, g.s0, g.s1);
    } else {
      XrgbBytesUnpack(g.s0, g.s1, g.s2, junk);
    }
  }

  lemma SampleOfPlaceNines(f: Format, j: nat, g: Group, junk: Word, w2: Word)
    requires (f.Rgb565x9? || f.Rgb565x9Swap?) && j < 4 && LegalSample(f, j, g.At(j))
    ensures Sample(f, j, WithJunk(f, Place(f, g), junk), w2) == g.At(j)
  {
    hide Byte, High9, Low9, Halves, From9, WithJunk, LegalHigh9, LegalLow9;
    Rgb565HasNoJunk(f, Place(f, g), junk);
    var h1, l1, h0, l0 :=
      if f.Rgb565x9? then g.s2 else g.s3, if f.Rgb565x9? then g.s3 else g.s2,
      if f.Rgb565x9? then g.s0 else g.s1, if f.Rgb565x9? then g.s1 else g.s0;
    match if f.Rgb565x9? then j else if j % 2 == 0 then j + 1 else j - 1
    case 0 => From9Unpack1(h1, l1, h0, l0);
    case 1 => From9Unpack0(h1, l1, h0, l0);
    case 2 => From9Unpack3(h1, l1, h0, l0);
    case _ => From9Unpack2(h1, l1, h0, l0);
  }

  lemma SampleOfPlace16(j: nat, g: Group, junk: Word, w2: Word)
    requires j < 2 && FitGroup(Rgb565x16, g)
    ensures Sample(Rgb565x16, j, WithJunk(Rgb565x16, Place(Rgb565x16, g), junk), w2) == g.At(j)
  {
    hide Half, Halves, WithJunk, Fits;
    Rgb565HasNoJunk(Rgb565x16, Place(Rgb565x16, g), junk);
    HalvesUnpack(g.s1, g.s0);
  }

  lemma SampleOfPlace18(j: nat, g: Group, junk: Word, w2: Word)
    requires j < 2 && LegalSample(Rgb565x18, j, g.At(j))
    ensures Sample(Rgb565x18, j, WithJunk(Rgb565x18, Place(Rgb565x18, g), junk), w2) == g.At(j)
  {
    hide Half, To18, Halves, From18, WithJunk, Legal18;
    Rgb565HasNoJunk(Rgb565x18, Place(Rgb565x18, g), junk);
    if j == 0 {
      From18Unpack0(g.s1, g.s0);
    } else {
      From18Unpack1(g.s1, g.s0);
    }
  }

  lemma SampleOfPlaceXrgb9(f: Format, j: nat, g: Group, junk: Word, w2: Word)
    requires (f.Xrgb9? || f.Xrgb9Swap?) && j < 2 && FitGroup(f, g)
    ensures Sample(f, j, WithJunk(f, Place(f, g), junk), w2) == g.At(j)
  {
    hide Xrgb9High, Xrgb9Low, FromXrgb9, WithJunk, Fits;
    if f.Xrgb9? {
      FromXrgb9Unpack(f, g.s0, g.s1, junk);
    } else {
      FromXrgb9Unpack(f, g.s1, g.s0, junk);
    }
  }

  lemma SampleOfPlaceXrgb16(j: nat, g: Group, junk: Word, junk2: Word)
    requires j < 3 && FitGroup(Xrgb16, g)
    ensures Sample(Xrgb16, j, WithJunk(Xrgb16, Place(Xrgb16, g), junk), WithJunk(Xrgb16, Place2(g), junk2)) == g.At(j)
  {
    hide Half, Mid16, Straddle, First24, Second24, WithJunk, Fits;
    Xrgb16Unpack(g.s0, g.s1, g.s2, junk, junk2);
  }

  lemma SampleOfPlaceXrgb18(g: Group, junk: Word, w2: Word)
    requires FitGroup(Xrgb18, g)
    ensures Sample(Xrgb18, 0, WithJunk(Xrgb18, Place(Xrgb18, g), junk), w2) == g.At(0)
  {
    hide Xrgb18Of, FromXrgb18, WithJunk, Fits;
    FromXrgb18Unpack(g.s0, junk);
  }

  lemma SampleOfPlacePlain(f: Format, g: Group, junk: Word, w2: Word)
    requires f.IsPlain() && FitGroup(f, g)
    ensures Sample(f, 0, WithJunk(f, Place(f, g), junk), w2) == g.At(0)
  {
    hide WithJunk, Truncated, Fits;
    PlainUnpack(f, g.s0, junk);
  }

  /** What the hardware packed, the driver unpacks, sample by sample, whatever the undefined bits hold. */
  lemma SampleOfPlace(f: Format, j: nat, g: Group, junk: Word, junk2: Word)
    requires !f.Rgb565x18Swap? && j < PixelsPerGroup(f) && FitGroup(f, g) && LegalSample(f, j, g.At(j))
    ensures Sample(f, j, WithJunk(f, Place(f, g), junk), WithJunk(f, Place2(g), junk2)) == g.At(j)
  {
    hide Sample, Place, Place2, WithJunk, FitGroup, LegalSample;
    var w2 := WithJunk(f, Place2(g), junk2);
    match f
    case Rgb565x8 | Xrgb8 => SampleOfPlaceBytes(f, j, g, junk, w2);
    case Rgb565x9 | Rgb565x9Swap => SampleOfPlaceNines(f, j, g, junk, w2);
    case Rgb565x16 => SampleOfPlace16(j, g, junk, w2);
    case Rgb565x18 => SampleOfPlace18(j, g, junk, w2);
    case Xrgb9 | Xrgb9Swap => SampleOfPlaceXrgb9(f, j, g, junk, w2);
    case Xrgb16 => SampleOfPlaceXrgb16(j, g, junk, junk2);
    case Xrgb18 => SampleOfPlaceXrgb18(g, junk, w2);
    case Plain8 | Plain9 | Plain16 | Plain18 => SampleOfPlacePlain(f, g, junk, w2);
  }

  // ----- Word by word: what is unpacked can be packed again into the same words -----

  lemma BytesPack(w: Word)
    ensures Bytes(Byte(w, 3), Byte(w, 2), Byte(w, 1), Byte(w, 0)) == w
  {
  }

  lemma From9Pack(w: Word)
    ensures Halves(From9(High9(Byte(w, 3)), Low9(Byte(w, 2))), From9(High9(Byte(w, 1)), Low9(Byte(w, 0)))) == w
  {
  }

  lemma From18Pack(w: Word)
    ensures Halves(From18(To18(Half(w, 1))), From18(To18(Half(w, 0)))) == w
  {
  }

  lemma HalvesPack(w: Word)
    ensures Halves(Half(w, 1), Half(w, 0)) == w
  {
  }

  lemma XrgbBytesPack(w: Word)
    ensures WithJunk(Xrgb8, Bytes(0, Byte(w, 2), Byte(w, 1), Byte(w, 0)), w) == w
  {
  }

  lemma FromXrgb9Pack(f: Format, w: Word)
    requires f.Xrgb9? || f.Xrgb9Swap?
    ensures WithJunk(f, FromXrgb9(Xrgb9High(w), Xrgb9Low(w)), w) == w
  {
  }

  lemma FromXrgb18Pack(w: Word)
    ensures WithJunk(Xrgb18, FromXrgb18(Xrgb18Of(w)), w) == w
  {
  }

  lemma First24Pack(w: Word, w2: Word)
    ensures WithJunk(Xrgb16, First24(Mid16(w), Straddle(w, w2)), w) == w
  {
  }

  lemma Second24Pack(w: Word, w2: Word)
    ensures WithJunk(Xrgb16, Second24(Straddle(w, w2), Half(w2, 0)), w2) == w2
  {
  }

  lemma MaskedPack(mask: Word, w: Word)
    ensures Merged(w, Complement(mask), Masked(w, mask)) == w
  {
  }

  lemma PlainPack(f: Format, w: Word)
    requires f.IsPlain()
    ensures WithJunk(f, Truncated(f, w), w) == w
  {
    hide BusMask, Masked, Complement, Merged;
    MaskedPack(BusMask(f), w);
  }

  predicate IsGroupOf(f: Format, g: Group, w: Word, w2: Word) {
    var n := PixelsPerGroup(f);
    g.s0 == Sample(f, 0, w, w2) && (n > 1 ==> g.s1 == Sample(f, 1, w, w2)) &&
    (n > 2 ==> g.s2 == Sample(f, 2, w, w2)) && (n > 3 ==> g.s3 == Sample(f, 3, w, w2))
  }

  lemma PlaceOfSampleBytes(f: Format, w: Word, w2: Word, g: Group)
    requires (f.Rgb565x8? || f.Xrgb8?) && IsGroupOf(f, g, w, w2)
    ensures WithJunk(f, Place(f, g), w) == w
  {
    hide Byte, Bytes, WithJunk;
    if f.Rgb565x8? {
      Rgb565HasNoJunk(f, Place(f, g), w);
      BytesPack(w);
    } else {
      XrgbBytesPack(w);
    }
  }

  lemma PlaceOfSampleNines(f: Format, w: Word, w2: Word, g: Group)
    requires (f.Rgb565x9? || f.Rgb565x9Swap?) && IsGroupOf(f, g, w, w2)
    ensures WithJunk(f, Place(f, g), w) == w
  {
    hide Byte, High9, Low9, Halves, From9, WithJunk;
    Rgb565HasNoJunk(f, Place(f, g), w);
    From9Pack(w);
  }

  lemma PlaceOfSampleHalves(f: Format, w: Word, w2: Word, g: Group)
    requires (f.Rgb565x16? || f.Rgb565x18?) && IsGroupOf(f, g, w, w2)
    ensures WithJunk(f, Place(f, g), w) == w
  {
    hide Half, To18, Halves, From18, WithJunk;
    Rgb565HasNoJunk(f, Place(f, g), w);
    if f.Rgb565x16? {
      HalvesPack(w);
    } else {
      From18Pack(w);
    }
  }

  lemma PlaceOfSampleXrgb9(f: Format, w: Word, w2: Word, g: Group)
    requires (f.Xrgb9? || f.Xrgb9Swap?) && IsGroupOf(f, g, w, w2)
    ensures WithJunk(f, Place(f, g), w) == w
  {
    hide Xrgb9High, Xrgb9Low, FromXrgb9, WithJunk;
    FromXrgb9Pack(f, w);
  }

  lemma PlaceOfSampleXrgb16(w: Word, w2: Word, g: Group)
    requires IsGroupOf(Xrgb16, g, w, w2)
    ensures WithJunk(Xrgb16, Place(Xrgb16, g), w) == w && WithJunk(Xrgb16, Place2(g), w2) == w2
  {
    hide Half, Mid16, Straddle, First24, Second24, WithJunk;
    First24Pack(w, w2);
    Second24Pack(w, w2);
  }

  lemma PlaceOfSampleXrgb18(w: Word, w2: Word, g: Group)
    requires IsGroupOf(Xrgb18, g, w, w2)
    ensures WithJunk(Xrgb18, Place(Xrgb18, g), w) == w
  {
    hide Xrgb18Of, FromXrgb18, WithJunk;
    FromXrgb18Pack(w);
  }

  lemma PlaceOfSamplePlain(f: Format, w: Word, w2: Word, g: Group)
    requires f.IsPlain() && IsGroupOf(f, g, w, w2)
    ensures WithJunk(f, Place(f, g), w) == w
  {
    hide WithJunk, Truncated;
    PlainPack(f, w);
  }

  /** What the driver unpacked, the hardware would pack back into the same words. */
  lemma PlaceOfSample(f: Format, w: Word, w2: Word, g: Group)
    requires !f.Rgb565x18Swap? && IsGroupOf(f, g, w, w2)
    ensures WithJunk(f, Place(f, g), w) == w
    ensures f.Xrgb16? ==> WithJunk(f, Place2(g), w2) == w2
  {
    hide Place, Place2, WithJunk, IsGroupOf;
    match f
    case Rgb565x8 | Xrgb8 => PlaceOfSampleBytes(f, w, w2, g);
    case Rgb565x9 | Rgb565x9Swap => PlaceOfSampleNines(f, w, w2, g);
    case Rgb565x16 | Rgb565x18 => PlaceOfSampleHalves(f, w, w2, g);
    case Xrgb9 | Xrgb9Swap => PlaceOfSampleXrgb9(f, w, w2, g);
    case Xrgb16 => PlaceOfSampleXrgb16(w, w2, g);
    case Xrgb18 => PlaceOfSampleXrgb18(w, w2, g);
    case Plain8 | Plain9 | Plain16 | Plain18 => PlaceOfSamplePlain(f, w, w2, g);
  }

  // ----- Every sample taken from the FIFO is one the format can carry -----

  lemma ByteFits(f: Format, w: Word, i: nat)
    requires i < 4 && (f.Rgb565x8? || f.Xrgb8?)
    ensures Fits(f, Byte(w, i))
  {
  }

  lemma HalfFits(f: Format, w: Word, i: nat)
    requires i < 2 && (f.Rgb565x16? || f.Xrgb16?)
    ensures Fits(f, Half(w, i))
  {
  }

  lemma High9Legal(w: Word, i: nat)
    requires i < 4
    ensures LegalHigh9(High9(Byte(w, i)))
  {
  }

  lemma Low9Legal(w: Word, i: nat)
    requires i < 4
    ensures LegalLow9(Low9(Byte(w, i)))
  {
  }

  lemma To18Legal(w: Word)
    ensures Legal18(To18(w))
  {
  }

  lemma Xrgb9Fits(f: Format, w: Word)
    requires f.Xrgb9? || f.Xrgb9Swap?
    ensures Fits(f, Xrgb9High(w)) && Fits(f, Xrgb9Low(w))
  {
  }

  lemma Xrgb16Fits(w: Word, w2: Word)
    ensures Fits(Xrgb16, Mid16(w)) && Fits(Xrgb16, Straddle(w, w2))
  {
  }

  lemma Xrgb18Fits(w: Word)
    ensures Fits(Xrgb18, Xrgb18Of(w))
  {
  }

  lemma MaskedFits(mask: Word, w: Word)
    ensures Masked(Masked(w, mask), Complement(mask)) == 0
  {
  }

  lemma TruncatedFits(f: Format, w: Word)
    ensures Fits(f, Truncated(f, w))
  {
    hide BusMask, Masked, Complement;
    MaskedFits(BusMask(f), w);
  }

  lemma SampleIsLegal9(f: Format, j: nat, w: Word, w2: Word)
    requires (f.Rgb565x9? || f.Rgb565x9Swap?) && j < 4
    ensures LegalSample(f, j, Sample(f, j, w, w2))
  {
    hide Byte, High9, Low9, LegalHigh9, LegalLow9;
    High9Legal(w, 1);
    High9Legal(w, 3);
    Low9Legal(w, 0);
    Low9Legal(w, 2);
  }

  lemma SampleIsLegalBytes(f: Format, j: nat, w: Word, w2: Word)
    requires (f.Rgb565x8? || f.Xrgb8?) && j < PixelsPerGroup(f)
    ensures LegalSample(f, j, Sample(f, j, w, w2))
  {
    hide Byte, Fits;
    ByteFits(f, w, if f.Xrgb8? then 2 - j else match j case 0 => 1 case 1 => 0 case 2 => 3 case _ => 2);
  }

  lemma SampleIsLegalHalves(f: Format, j: nat, w: Word, w2: Word)
    requires (f.Rgb565x16? || f.Rgb565x18?) && j < 2
    ensures LegalSample(f, j, Sample(f, j, w, w2))
  {
    hide Half, To18, Legal18, Fits;
    if f.Rgb565x16? {
      HalfFits(f, w, j);
    } else {
      To18Legal(Half(w, j));
    }
  }

  lemma SampleIsLegalXrgb(f: Format, j: nat, w: Word, w2: Word)
    requires (f.Xrgb9? || f.Xrgb9Swap? || f.Xrgb16? || f.Xrgb18?) && j < PixelsPerGroup(f)
    ensures LegalSample(f, j, Sample(f, j, w, w2))
  {
    hide Half, Xrgb9High, Xrgb9Low, Xrgb18Of, Mid16, Straddle, Fits;
    match f
    case Xrgb9 | Xrgb9Swap => Xrgb9Fits(f, w);
    case Xrgb16 => Xrgb16Fits(w, w2); HalfFits(f, w2, 0);
    case Xrgb18 => Xrgb18Fits(w);
  }

  lemma SampleIsLegalPlain(f: Format, w: Word, w2: Word)
    requires f.IsPlain()
    ensures LegalSample(f, 0, Sample(f, 0, w, w2))
  {
    hide Truncated, Fits;
    TruncatedFits(f, w);
  }

  lemma SampleIsLegal(f: Format, j: nat, w: Word, w2: Word)
    requires !f.Rgb565x18Swap? && j < PixelsPerGroup(f)
    ensures LegalSample(f, j, Sample(f, j, w, w2))
  {
    hide LegalSample, Sample;
    match f
    case Rgb565x8 | Xrgb8 => SampleIsLegalBytes(f, j, w, w2);
    case Rgb565x9 | Rgb565x9Swap => SampleIsLegal9(f, j, w, w2);
    case Rgb565x16 | Rgb565x18 => SampleIsLegalHalves(f, j, w, w2);
    case Xrgb9 | Xrgb9Swap | Xrgb16 | Xrgb18 => SampleIsLegalXrgb(f, j, w, w2);
    case Plain8 | Plain9 | Plain16 | Plain18 => SampleIsLegalPlain(f, w, w2);
  }

  /** What storing into one element of the caller's buffer leaves of a sample. */
  function Narrowed(f: Format, s: Word): Word { Masked(s, SlotMask(f)) }

  lemma MaskWithin(s: Word, m: Word, k: Word)
    requires Masked(s, Complement(m)) == 0 && Masked(m, Complement(k)) == 0
    ensures Masked(s, k) == s
  {
  }

  lemma SlotHoldsBus(f: Format)
    ensures Masked(BusMask(f), Complement(SlotMask(f))) == 0
  {
  }

  lemma FitsIsNarrow(f: Format, s: Word)
    requires Fits(f, s)
    ensures Narrowed(f, s) == s
  {
    hide BusMask, SlotMask, Masked, Complement;
    SlotHoldsBus(f);
    MaskWithin(s, BusMask(f), SlotMask(f));
  }

  lemma NineFits(f: Format, s: Word)
    requires f.Rgb565x9? || f.Rgb565x9Swap?
    ensures LegalHigh9(s) || LegalLow9(s) ==> Fits(f, s)
  {
  }

  lemma EighteenFits(s: Word)
    requires Legal18(s)
    ensures Fits(Rgb565x18, s)
  {
  }

  lemma LegalFits(f: Format, i: nat, s: Word)
    requires LegalSample(f, i, s)
    ensures Fits(f, s)
  {
    hide LegalHigh9, LegalLow9, Legal18, Fits;
    match f
    case Rgb565x9 | Rgb565x9Swap => NineFits(f, s);
    case Rgb565x18 => EighteenFits(s);
    case _ =>
  }

  /** The elements of the caller's buffer are wide enough for every sample. */
  lemma StoreKeepsSample(f: Format, j: nat, w: Word, w2: Word)
    requires j < PixelsPerGroup(f)
    ensures Narrowed(f, Sample(f, j, w, w2)) == Sample(f, j, w, w2)
  {
    if f.Rgb565x18Swap? {
      hide Sample;
      AllOnes(Sample(f, j, w, w2));
    } else {
      hide Sample, LegalSample, Narrowed, Fits;
      SampleIsLegal(f, j, w, w2);
      LegalFits(f, j, Sample(f, j, w, w2));
      FitsIsNarrow(f, Sample(f, j, w, w2));
    }
  }

  /** And no wider than that. */
  lemma SlotIsSmallest(f: Format)
    ensures SlotMask(f) == if BusMask(f) <= 0xFF then 0xFF else if BusMask(f) <= 0xFFFF then 0xFFFF else 0xFFFF_FFFF
  {
  }

  /** The bits of a byte in reverse order. */
  function ReversedByte(b: Word): Word {
    ((b & 1) << 7) | ((b & 2) << 5) | ((b & 4) << 3) | ((b & 8) << 1) |
    ((b >> 1) & 8) | ((b >> 3) & 4) | ((b >> 5) & 2) | ((b >> 7) & 1)
  }

  /**
   What `reverse18` makes of a half word: its 16 bits in reverse order, except that the two upper ones, which would
   come out lowest, are lost.
   */
  lemma Reverse18OfHalf(h: Word)
    requires Masked(h, Complement(0xFFFF)) == 0
    ensures Reverse18(h) == (ReversedByte(Byte(h, 0)) << 8) | (ReversedByte(Byte(h, 1)) & 0xFC)
  {
  }

  lemma AllOnes(s: Word)
    ensures s & 0xFFFF_FFFF == s
  {
  }
}
