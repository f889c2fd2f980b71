/**
 Whole transfers: the unpack loops of src/smi.c as functions on the raw word array, their inverse, and the laws
 that relate different formats as views of one FIFO.
 */
module Streams {
  import opened Words
  import opened Packing

  /** The samples one step of the unpack loop stores. */
  function Samples(f: Format, w: Word, w2: Word): (g: seq<Word>)
    ensures |g| == PixelsPerGroup(f)
  {
    seq(PixelsPerGroup(f), j requires 0 <= j < PixelsPerGroup(f) => Sample(f, j, w, w2))
  }

  /** Everything the unpack loop stores for the raw words `ws`; a last incomplete group is dropped. */
  function Unpacked(f: Format, ws: seq<Word>): seq<Word> {
    var n := WordsPerGroup(f);
    if |ws| < n then [] else Samples(f, ws[0], ws[n - 1]) + Unpacked(f, ws[n..])
  }

  function GroupAt(f: Format, s: seq<Word>): Group
    requires |s| >= PixelsPerGroup(f)
  {
    var n := PixelsPerGroup(f);
    Group(s[0], if n > 1 then s[1] else 0, if n > 2 then s[2] else 0, if n > 3 then s[3] else 0)
  }

  /** The FIFO words of one group. */
  function PackedGroup(f: Format, g: Group, junk: seq<Word>): (ws: seq<Word>)
    requires !f.Rgb565x18Swap? && |junk| >= WordsPerGroup(f)
    ensures |ws| == WordsPerGroup(f)
  {
    var w := WithJunk(f, Place(f, g), junk[0]);
    if f.Xrgb16? then [w, WithJunk(f, Place2(g), junk[1])] else [w]
  }

  /** The FIFO words in which the hardware holds the samples `s`, group by group. */
  function Packed(f: Format, s: seq<Word>, junk: seq<Word>): seq<Word>
    requires !f.Rgb565x18Swap?
  {
    var n, m := PixelsPerGroup(f), WordsPerGroup(f);
    if |s| < n || |junk| < m then [] else PackedGroup(f, GroupAt(f, s), junk) + Packed(f, s[n..], junk[m..])
  }

  /** Every sample is one the format can carry at its place. */
  predicate Legal(f: Format, s: seq<Word>) {
    forall i :: 0 <= i < |s| ==> LegalSample(f, i, s[i])
  }

  /** Every sample fits the bus. */
  predicate AllFit(f: Format, s: seq<Word>) {
    forall i :: 0 <= i < |s| ==> Fits(f, s[i])
  }

  /** Samples that the unpack loop produces from `n` raw words. */
  function SampleCount(f: Format, n: nat): nat {
    (n / WordsPerGroup(f)) * PixelsPerGroup(f)
  }

  lemma {:induction false} UnpackedLength(f: Format, ws: seq<Word>)
    ensures |Unpacked(f, ws)| == SampleCount(f, |ws|)
  {
    hide Samples;
    var n := WordsPerGroup(f);
    if |ws| >= n {
      UnpackedLength(f, ws[n..]);
      assert |ws| / n == |ws[n..]| / n + 1;
    }
  }

  lemma UnpackedFirst(f: Format, ws: seq<Word>)
    ensures |ws| >= WordsPerGroup(f) ==>
              Unpacked(f, ws) == Samples(f, ws[0], ws[WordsPerGroup(f) - 1]) + Unpacked(f, ws[WordsPerGroup(f)..])
    ensures |ws| < WordsPerGroup(f) ==> Unpacked(f, ws) == []
  {
    hide Samples;
  }

  /** The loop may stop and go on at any group boundary. */
  lemma {:induction false} UnpackedAppend(f: Format, a: seq<Word>, b: seq<Word>)
    requires |a| % WordsPerGroup(f) == 0
    ensures Unpacked(f, a + b) == Unpacked(f, a) + Unpacked(f, b)
  {
    hide Samples, Unpacked;
    var n := WordsPerGroup(f);
    UnpackedFirst(f, a);
    UnpackedFirst(f, a + b);
    if a == [] {
      assert a + b == b;
    } else {
      UnpackedAppend(f, a[n..], b);
      assert (a + b)[n..] == a[n..] + b;
      var head := Samples(f, a[0], a[n - 1]);
      assert head + (Unpacked(f, a[n..]) + Unpacked(f, b)) == head + Unpacked(f, a[n..]) + Unpacked(f, b);
    }
  }

  /** The samples of fewer raw words are the first samples of more. */
  lemma {:induction false} UnpackedPrefix(f: Format, ws: seq<Word>, n: nat)
    requires n <= |ws|
    ensures SampleCount(f, n) <= |Unpacked(f, ws)|
    ensures Unpacked(f, ws[..n]) == Unpacked(f, ws)[..SampleCount(f, n)]
  {
    hide Samples, Unpacked;
    var m := WordsPerGroup(f);
    var k := n / m * m;
    UnpackedAppend(f, ws[..k], ws[k..]);
    UnpackedAppend(f, ws[..k], ws[k..n]);
    assert ws == ws[..k] + ws[k..] && ws[..n] == ws[..k] + ws[k..n];
    UnpackedFirst(f, ws[k..n]);
    UnpackedLength(f, ws[..k]);
    assert k / m == n / m;
  }

  lemma {:induction false} PackedLength(f: Format, s: seq<Word>, junk: seq<Word>, groups: nat)
    requires !f.Rgb565x18Swap?
    requires |s| == groups * PixelsPerGroup(f) && |junk| == groups * WordsPerGroup(f)
    ensures |Packed(f, s, junk)| == groups * WordsPerGroup(f)
  {
    hide PackedGroup, GroupAt;
    if groups > 0 {
      PackedLength(f, s[PixelsPerGroup(f)..], junk[WordsPerGroup(f)..], groups - 1);
    }
  }

  /**
   The samples fit the bus, so storing them into 8- and 16-bit slots loses nothing, and the replicated bits are
   where the format has them.
   */
  lemma {:induction false} UnpackedIsLegal(f: Format, ws: seq<Word>)
    requires !f.Rgb565x18Swap?
    ensures Legal(f, Unpacked(f, ws))
  {
    hide Sample, LegalSample, Unpacked, PixelsPerGroup;
    var n, m, s := WordsPerGroup(f), PixelsPerGroup(f), Unpacked(f, ws);
    UnpackedFirst(f, ws);
    if |ws| >= n {
      var rest := Unpacked(f, ws[n..]);
      UnpackedIsLegal(f, ws[n..]);
      forall i | 0 <= i < |s|
        ensures LegalSample(f, i, s[i])
      {
        if i < m {
          SampleIsLegal(f, i, ws[0], ws[n - 1]);
        } else {
          assert s[i] == rest[i - m];
          OneGroupOn(f, i - m, s[i]);
        }
      }
    }
  }

  lemma OneGroupOn(f: Format, i: nat, s: Word)
    requires !f.Rgb565x18Swap?
    ensures LegalSample(f, i, s) <==> LegalSample(f, i + PixelsPerGroup(f), s)
  {
    hide LegalHigh9, LegalLow9, Legal18, Fits;
  }

  // ----- Packing and unpacking are inverse -----

  lemma LegalIsFit(f: Format, s: seq<Word>)
    requires Legal(f, s)
    ensures AllFit(f, s)
  {
    hide Fits, LegalSample;
    forall i | 0 <= i < |s|
      ensures Fits(f, s[i])
    {
      LegalFits(f, i, s[i]);
    }
  }

  /** The formats in which some sample bits repeat others. */
  predicate Replicates(f: Format) { f.Rgb565x9? || f.Rgb565x9Swap? || f.Rgb565x18? }

  lemma FitIsLegal(f: Format, s: seq<Word>)
    requires !Replicates(f) && AllFit(f, s)
    ensures Legal(f, s)
  {
    hide Fits;
  }

  lemma FitTail(f: Format, s: seq<Word>)
    requires |s| >= PixelsPerGroup(f) && AllFit(f, s)
    ensures FitGroup(f, GroupAt(f, s)) && AllFit(f, s[PixelsPerGroup(f)..])
  {
    hide Fits;
  }

  /** Only 16-bit XRGB looks at the second word. */
  lemma OneWord(f: Format, j: nat, w: Word, w2: Word, w2': Word)
    requires j < PixelsPerGroup(f)
    ensures !f.Xrgb16? ==> Sample(f, j, w, w2) == Sample(f, j, w, w2')
  {
    hide Byte, Half, High9, Low9, To18, Xrgb9High, Xrgb9Low, Xrgb18Of, Mid16, Straddle, Truncated, Reverse18;
  }

  lemma GroupSampleAt(f: Format, s: seq<Word>, junk: seq<Word>, j: nat)
    requires !f.Rgb565x18Swap? && |s| >= PixelsPerGroup(f) && |junk| >= WordsPerGroup(f)
    requires AllFit(f, s) && j < PixelsPerGroup(f) && LegalSample(f, j, s[j])
    ensures var ws := PackedGroup(f, GroupAt(f, s), junk);
            Samples(f, ws[0], ws[WordsPerGroup(f) - 1])[j] == s[j]
  {
    hide Sample, Place, Place2, WithJunk, FitGroup, AllFit, LegalSample;
    var g := GroupAt(f, s);
    var ws := PackedGroup(f, g, junk);
    FitTail(f, s);
    assert g.At(j) == s[j];
    SampleOfPlace(f, j, g, junk[0], if f.Xrgb16? then junk[1] else junk[0]);
    OneWord(f, j, ws[0], ws[0], WithJunk(f, Place2(g), junk[0]));
  }

  lemma PackedFirst(f: Format, s: seq<Word>, junk: seq<Word>)
    requires !f.Rgb565x18Swap? && |s| >= PixelsPerGroup(f) && |junk| >= WordsPerGroup(f)
    ensures Packed(f, s, junk) ==
            PackedGroup(f, GroupAt(f, s), junk) + Packed(f, s[PixelsPerGroup(f)..], junk[WordsPerGroup(f)..])
  {
    hide PackedGroup, GroupAt;
  }

  lemma UnpackedGroupFirst(f: Format, head: seq<Word>, rest: seq<Word>)
    requires |head| == WordsPerGroup(f)
    ensures Unpacked(f, head + rest) == Samples(f, head[0], head[WordsPerGroup(f) - 1]) + Unpacked(f, rest)
  {
    hide Samples;
    assert (head + rest)[WordsPerGroup(f)..] == rest;
  }

  lemma UnpackedOfPackedFirst(f: Format, s: seq<Word>, junk: seq<Word>)
    requires !f.Rgb565x18Swap? && |s| >= PixelsPerGroup(f) && |junk| >= WordsPerGroup(f)
    ensures var ws := PackedGroup(f, GroupAt(f, s), junk);
            Unpacked(f, Packed(f, s, junk)) ==
            Samples(f, ws[0], ws[WordsPerGroup(f) - 1]) +
            Unpacked(f, Packed(f, s[PixelsPerGroup(f)..], junk[WordsPerGroup(f)..]))
  {
    hide *;
    var n, m := PixelsPerGroup(f), WordsPerGroup(f);
    PackedFirst(f, s, junk);
    UnpackedGroupFirst(f, PackedGroup(f, GroupAt(f, s), junk), Packed(f, s[n..], junk[m..]));
  }

  lemma {:induction false} UnpackedOfPackedLength(f: Format, s: seq<Word>, junk: seq<Word>, groups: nat)
    requires !f.Rgb565x18Swap?
    requires |s| == groups * PixelsPerGroup(f) && |junk| == groups * WordsPerGroup(f)
    ensures |Unpacked(f, Packed(f, s, junk))| == |s|
  {
    hide Samples, PackedGroup, GroupAt;
    if groups > 0 {
      UnpackedOfPackedLength(f, s[PixelsPerGroup(f)..], junk[WordsPerGroup(f)..], groups - 1);
      UnpackedOfPackedFirst(f, s, junk);
    }
  }

  lemma {:induction false} LegalSampleSurvives(f: Format, s: seq<Word>, junk: seq<Word>, groups: nat, i: nat)
    requires !f.Rgb565x18Swap? && AllFit(f, s)
    requires |s| == groups * PixelsPerGroup(f) && |junk| == groups * WordsPerGroup(f)
    requires i < |s| && LegalSample(f, i, s[i])
    ensures |Unpacked(f, Packed(f, s, junk))| == |s| && Unpacked(f, Packed(f, s, junk))[i] == s[i]
  {
    hide Samples, PackedGroup, LegalSample, AllFit, GroupAt, Packed, Unpacked, FitGroup;
    var n := PixelsPerGroup(f);
    UnpackedOfPackedLength(f, s, junk, groups);
    UnpackedOfPackedFirst(f, s, junk);
    if i < n {
      GroupSampleAt(f, s, junk, i);
    } else {
      FitTail(f, s);
      OneGroupOn(f, i - n, s[i]);
      LegalSampleSurvives(f, s[n..], junk[WordsPerGroup(f)..], groups - 1, i - n);
    }
  }

  /** A sample on the bus survives the FIFO if and only if it repeats the replicated bits, whatever the others do. */
  lemma SampleSurvivesIff(f: Format, s: seq<Word>, junk: seq<Word>, groups: nat, i: nat)
    requires !f.Rgb565x18Swap? && AllFit(f, s)
    requires |s| == groups * PixelsPerGroup(f) && |junk| == groups * WordsPerGroup(f) && i < |s|
    ensures |Unpacked(f, Packed(f, s, junk))| == |s|
    ensures Unpacked(f, Packed(f, s, junk))[i] == s[i] <==> LegalSample(f, i, s[i])
  {
    hide LegalSample, AllFit, Packed, Unpacked;
    UnpackedOfPackedLength(f, s, junk, groups);
    UnpackedIsLegal(f, Packed(f, s, junk));
    if LegalSample(f, i, s[i]) {
      LegalSampleSurvives(f, s, junk, groups, i);
    }
  }

  /** The first `n` samples survive if and only if each of them is one the format can carry. */
  lemma PrefixSurvivesIff(f: Format, s: seq<Word>, junk: seq<Word>, groups: nat, n: nat)
    requires !f.Rgb565x18Swap? && AllFit(f, s)
    requires |s| == groups * PixelsPerGroup(f) && |junk| == groups * WordsPerGroup(f) && n <= |s|
    ensures |Unpacked(f, Packed(f, s, junk))| == |s|
    ensures Unpacked(f, Packed(f, s, junk))[..n] == s[..n] <==> Legal(f, s[..n])
  {
    hide LegalSample, AllFit, Packed, Unpacked;
    UnpackedOfPackedLength(f, s, junk, groups);
    var u := Unpacked(f, Packed(f, s, junk));
    forall i | 0 <= i < n
      ensures u[..n][i] == s[..n][i] <==> LegalSample(f, i, s[..n][i])
    {
      SampleSurvivesIff(f, s, junk, groups, i);
    }
  }

  /**
   The caller gets the samples the bus carried: unpacking the words that hold `s` gives `s` back, for every
   content of the bits the format leaves undefined.
   */
  lemma UnpackedOfPacked(f: Format, s: seq<Word>, junk: seq<Word>, groups: nat)
    requires !f.Rgb565x18Swap? && Legal(f, s)
    requires |s| == groups * PixelsPerGroup(f) && |junk| == groups * WordsPerGroup(f)
    ensures Unpacked(f, Packed(f, s, junk)) == s
  {
    hide Legal, AllFit, Packed, Unpacked;
    LegalIsFit(f, s);
    PrefixSurvivesIff(f, s, junk, groups, |s|);
    assert s[..|s|] == s;
  }

  /** Samples survive the FIFO if and only if they fit the bus and repeat the replicated bits. */
  lemma SurvivesIffLegal(f: Format, s: seq<Word>, junk: seq<Word>, groups: nat)
    requires !f.Rgb565x18Swap?
    requires |s| == groups * PixelsPerGroup(f) && |junk| == groups * WordsPerGroup(f)
    ensures Unpacked(f, Packed(f, s, junk)) == s <==> Legal(f, s)
  {
    hide Legal, Unpacked, Packed;
    if Legal(f, s) {
      UnpackedOfPacked(f, s, junk, groups);
    }
    UnpackedIsLegal(f, Packed(f, s, junk));
  }

  lemma PackedOfUnpackedGroup(f: Format, ws: seq<Word>, junk: seq<Word>)
    requires !f.Rgb565x18Swap? && |ws| >= WordsPerGroup(f) && |junk| >= WordsPerGroup(f)
    requires junk == ws || IsRgb565(f)
    ensures |Unpacked(f, ws)| >= PixelsPerGroup(f)
    ensures PackedGroup(f, GroupAt(f, Unpacked(f, ws)), junk) == ws[..WordsPerGroup(f)]
  {
    hide Sample, Place, Place2, WithJunk;
    var g := GroupAt(f, Unpacked(f, ws));
    PlaceOfSample(f, ws[0], ws[WordsPerGroup(f) - 1], g);
    if IsRgb565(f) {
      Rgb565HasNoJunk(f, Place(f, g), junk[0]);
      Rgb565HasNoJunk(f, Place(f, g), ws[0]);
    }
  }

  /**
   Nothing in the FIFO is lost: repacking the unpacked samples gives back every raw word, taking only the bits
   that the format leaves undefined from the raw words themselves. RGB565 leaves none undefined.
   */
  lemma {:induction false} PackedOfUnpacked(f: Format, ws: seq<Word>, junk: seq<Word>, groups: nat)
    requires !f.Rgb565x18Swap? && |ws| == |junk| == groups * WordsPerGroup(f)
    requires junk == ws || IsRgb565(f)
    ensures Packed(f, Unpacked(f, ws), junk) == ws
  {
    hide Sample, Samples, PackedGroup;
    var n, m := PixelsPerGroup(f), WordsPerGroup(f);
    if groups > 0 {
      PackedOfUnpacked(f, ws[m..], junk[m..], groups - 1);
      PackedOfUnpackedGroup(f, ws, junk);
      assert Unpacked(f, ws)[n..] == Unpacked(f, ws[m..]);
    }
  }
}
