/** Independent unpack functions of src/smi.c are views of the same FIFO bits. */
module Views {
  import opened Words
  import opened Packing
  import opened Streams

  function Join8(high: Word, low: Word): Word { (high << 8) | low }
  function Join9(high: Word, low: Word): Word { (high << 9) | low }

  /** Consecutive samples joined two by two, the earlier one in the high bits. */
  function Paired(join: (Word, Word) -> Word, s: seq<Word>): (p: seq<Word>)
    ensures |p| == |s| / 2
  {
    if |s| < 2 then [] else [join(s[0], s[1])] + Paired(join, s[2..])
  }

  /** Consecutive samples exchanged two by two. */
  function Swapped(s: seq<Word>): (p: seq<Word>)
    ensures |p| == |s|
  {
    if |s| < 2 then s else [s[1], s[0]] + Swapped(s[2..])
  }

  lemma {:induction false} PairedAppend(join: (Word, Word) -> Word, a: seq<Word>, b: seq<Word>)
    requires |a| % 2 == 0
    ensures Paired(join, a + b) == Paired(join, a) + Paired(join, b)
  {
    if a == [] {
      assert a + b == b;
    } else {
      assert (a + b)[2..] == a[2..] + b;
      PairedAppend(join, a[2..], b);
    }
  }

  lemma PairedFour(join: (Word, Word) -> Word, a: Word, b: Word, c: Word, d: Word)
    ensures Paired(join, [a, b, c, d]) == [join(a, b), join(c, d)]
  {
    assert [a, b, c, d][2..] == [c, d];
    assert [c, d][2..] == [];
  }

  lemma PairedSix(join: (Word, Word) -> Word, x: seq<Word>, y: seq<Word>)
    requires |x| == |y| == 3
    ensures Paired(join, x + y) == [join(x[0], x[1]), join(x[2], y[0]), join(y[1], y[2])]
  {
    assert (x + y)[2..] == [x[2], y[0], y[1], y[2]];
    PairedFour(join, x[2], y[0], y[1], y[2]);
  }

  lemma {:induction false} SwappedAppend(a: seq<Word>, b: seq<Word>)
    requires |a| % 2 == 0
    ensures Swapped(a + b) == Swapped(a) + Swapped(b)
  {
    if a == [] {
      assert a + b == b;
    } else {
      assert (a + b)[2..] == a[2..] + b;
      SwappedAppend(a[2..], b);
    }
  }

  // ----- 8-bit bytes, paired big-endian, are the 16-bit samples -----

  lemma Rgb565Bytes(w: Word)
    ensures Join8(Byte(w, 1), Byte(w, 0)) == Half(w, 0)
    ensures Join8(Byte(w, 3), Byte(w, 2)) == Half(w, 1)
  {
  }

  lemma Rgb565Samples(w: Word)
    ensures Samples(Rgb565x8, w, w) == [Byte(w, 1), Byte(w, 0), Byte(w, 3), Byte(w, 2)]
    ensures Samples(Rgb565x16, w, w) == [Half(w, 0), Half(w, 1)]
  {
    hide Byte, Half;
  }

  lemma Rgb565Word8To16(w: Word)
    ensures Paired(Join8, Samples(Rgb565x8, w, w)) == Samples(Rgb565x16, w, w)
  {
    hide Byte, Half, Join8, Samples;
    Rgb565Bytes(w);
    Rgb565Samples(w);
    PairedFour(Join8, Byte(w, 1), Byte(w, 0), Byte(w, 3), Byte(w, 2));
  }

  lemma {:induction false} Rgb565Pairs8To16(ws: seq<Word>)
    ensures Paired(Join8, Unpacked(Rgb565x8, ws)) == Unpacked(Rgb565x16, ws)
  {
    hide Samples, Join8;
    if ws != [] {
      Rgb565Pairs8To16(ws[1..]);
      Rgb565Word8To16(ws[0]);
      PairedAppend(Join8, Samples(Rgb565x8, ws[0], ws[0]), Unpacked(Rgb565x8, ws[1..]));
    }
  }

  lemma XrgbBytes(w: Word, w2: Word)
    ensures Join8(Byte(w, 2), Byte(w, 1)) == Mid16(w)
    ensures Join8(Byte(w, 0), Byte(w2, 2)) == Straddle(w, w2)
    ensures Join8(Byte(w2, 1), Byte(w2, 0)) == Half(w2, 0)
  {
  }

  lemma XrgbSamples(w: Word, w2: Word)
    ensures Samples(Xrgb8, w, w) == [Byte(w, 2), Byte(w, 1), Byte(w, 0)]
    ensures Samples(Xrgb16, w, w2) == [Mid16(w), Straddle(w, w2), Half(w2, 0)]
  {
    hide Byte, Half, Mid16, Straddle;
  }

  lemma XrgbWords8To16(w: Word, w2: Word)
    ensures Paired(Join8, Samples(Xrgb8, w, w) + Samples(Xrgb8, w2, w2)) == Samples(Xrgb16, w, w2)
  {
    hide Samples, Byte, Half, Mid16, Straddle, Join8;
    XrgbBytes(w, w2);
    XrgbSamples(w, w2);
    XrgbSamples(w2, w);
    PairedSix(Join8, Samples(Xrgb8, w, w), Samples(Xrgb8, w2, w2));
  }

  lemma {:induction false} XrgbPairs8To16(ws: seq<Word>)
    requires |ws| % 2 == 0
    ensures Paired(Join8, Unpacked(Xrgb8, ws)) == Unpacked(Xrgb16, ws)
  {
    hide Samples, Join8;
    if ws != [] {
      XrgbPairs8To16(ws[2..]);
      XrgbWords8To16(ws[0], ws[1]);
      var s, t := Samples(Xrgb8, ws[0], ws[0]), Samples(Xrgb8, ws[1], ws[1]);
      assert ws[1..][1..] == ws[2..];
      assert Unpacked(Xrgb8, ws) == s + t + Unpacked(Xrgb8, ws[2..]);
      PairedAppend(Join8, s + t, Unpacked(Xrgb8, ws[2..]));
    }
  }

  // ----- 9-bit samples, joined, are the 18-bit samples -----

  lemma XrgbWord9To18(w: Word)
    ensures Join9(Xrgb9High(w), Xrgb9Low(w)) == Xrgb18Of(w)
  {
  }

  lemma XrgbWords9To18(w: Word)
    ensures Samples(Xrgb9, w, w) == [Xrgb9High(w), Xrgb9Low(w)] && Samples(Xrgb18, w, w) == [Xrgb18Of(w)]
  {
    hide Xrgb9High, Xrgb9Low, Xrgb18Of;
  }

  lemma {:induction false} XrgbPairs9To18(ws: seq<Word>)
    ensures Paired(Join9, Unpacked(Xrgb9, ws)) == Unpacked(Xrgb18, ws)
  {
    hide Xrgb9High, Xrgb9Low, Xrgb18Of, Join9, Samples;
    if ws != [] {
      XrgbPairs9To18(ws[1..]);
      XrgbWord9To18(ws[0]);
      XrgbWords9To18(ws[0]);
      assert Unpacked(Xrgb9, ws)[2..] == Unpacked(Xrgb9, ws[1..]);
    }
  }

  /** The 18-bit XRGB sample is the upper six bits of each of the three 8-bit samples. */
  lemma Xrgb18IsTopSix(w: Word)
    ensures Sample(Xrgb18, 0, w, w) ==
            ((Sample(Xrgb8, 0, w, w) >> 2) << 12) | ((Sample(Xrgb8, 1, w, w) >> 2) << 6) | (Sample(Xrgb8, 2, w, w) >> 2)
  {
  }

  /** The two replicated bits of an 18-bit RGB565 sample, which the 9-bit unpacker fills from other bits. */
  const REPLICATED: Word := 0x1001

  predicate SameOutside(mask: Word, a: Word, b: Word) { a & !mask == b & !mask }

  /** The 9-bit view of one half word: equal to the 18-bit view outside the replicated bits. */
  lemma Rgb565Half9To18(w: Word)
    ensures SameOutside(REPLICATED, Join9(High9(Byte(w, 1)), Low9(Byte(w, 0))), To18(Half(w, 0)))
  {
  }

  lemma Rgb565Upper9To18(w: Word)
    ensures SameOutside(REPLICATED, Join9(High9(Byte(w, 3)), Low9(Byte(w, 2))), To18(Half(w, 1)))
  {
  }

  /** Both replicated bits of the 9-bit view are the ones the 18-bit view has. */
  predicate ReplicasAgree(h: Word) { (h >> 13) & 1 == (h >> 15) & 1 && (h >> 7) & 1 == 0 }

  function JoinedHalf(h: Word): Word { Join9(High9(Byte(h, 1)), Low9(Byte(h, 0))) }

  lemma Rgb565ViewsAgree(h: Word)
    ensures ReplicasAgree(h) ==> JoinedHalf(h) == To18(Half(h, 0))
  {
  }

  lemma Rgb565ViewsDiffer(h: Word)
    ensures JoinedHalf(h) == To18(Half(h, 0)) ==> ReplicasAgree(h)
  {
  }

  lemma UpperBytes(w: Word)
    ensures Byte(Half(w, 1), 1) == Byte(w, 3) && Byte(Half(w, 1), 0) == Byte(w, 2) && Half(Half(w, 1), 0) == Half(w, 1)
  {
  }

  lemma Rgb565NineBitSamples(w: Word)
    ensures Samples(Rgb565x9, w, w) == [High9(Byte(w, 1)), Low9(Byte(w, 0)), High9(Byte(w, 3)), Low9(Byte(w, 2))]
    ensures Samples(Rgb565x18, w, w) == [To18(Half(w, 0)), To18(Half(w, 1))]
  {
    hide High9, Low9, Byte, Half, To18;
  }

  lemma Rgb565Word9To18(w: Word)
    ensures Paired(Join9, Samples(Rgb565x9, w, w)) ==
            [Join9(High9(Byte(w, 1)), Low9(Byte(w, 0))), Join9(High9(Byte(w, 3)), Low9(Byte(w, 2)))]
    ensures Samples(Rgb565x18, w, w) == [To18(Half(w, 0)), To18(Half(w, 1))]
  {
    hide High9, Low9, Byte, Half, To18, Join9, Samples;
    Rgb565NineBitSamples(w);
    PairedFour(Join9, High9(Byte(w, 1)), Low9(Byte(w, 0)), High9(Byte(w, 3)), Low9(Byte(w, 2)));
  }

  lemma {:induction false} Rgb565Pairs9To18(ws: seq<Word>)
    ensures var a, b := Paired(Join9, Unpacked(Rgb565x9, ws)), Unpacked(Rgb565x18, ws);
            |a| == |b| && forall i :: 0 <= i < |b| ==> SameOutside(REPLICATED, a[i], b[i])
  {
    hide High9, Low9, Byte, Half, To18, Join9, SameOutside, Samples, Paired;
    if ws != [] {
      Rgb565Pairs9To18(ws[1..]);
      Rgb565Half9To18(ws[0]);
      Rgb565Upper9To18(ws[0]);
      Rgb565Word9To18(ws[0]);
      PairedAppend(Join9, Samples(Rgb565x9, ws[0], ws[0]), Unpacked(Rgb565x9, ws[1..]));
    }
  }

  predicate AllReplicasAgree(ws: seq<Word>) {
    forall k :: 0 <= k < |ws| ==> ReplicasAgree(ws[k]) && ReplicasAgree(Half(ws[k], 1))
  }

  lemma Rgb565WordViewsAgreeIff(w: Word)
    ensures Paired(Join9, Samples(Rgb565x9, w, w)) == Samples(Rgb565x18, w, w) <==>
            ReplicasAgree(w) && ReplicasAgree(Half(w, 1))
  {
    hide High9, Low9, Byte, Half, To18, Join9, Samples, ReplicasAgree;
    Rgb565Word9To18(w);
    UpperBytes(w);
    Rgb565ViewsAgree(w);
    Rgb565ViewsDiffer(w);
    Rgb565ViewsAgree(Half(w, 1));
    Rgb565ViewsDiffer(Half(w, 1));
  }

  /** The two views agree in full exactly when every half word has the same bits where the two replicate. */
  lemma {:induction false} Rgb565ViewsAgreeIff(ws: seq<Word>)
    ensures Paired(Join9, Unpacked(Rgb565x9, ws)) == Unpacked(Rgb565x18, ws) <==> AllReplicasAgree(ws)
  {
    hide Half, Join9, Samples, ReplicasAgree;
    if ws != [] {
      var head, tail := Samples(Rgb565x9, ws[0], ws[0]), Unpacked(Rgb565x9, ws[1..]);
      Rgb565ViewsAgreeIff(ws[1..]);
      Rgb565WordViewsAgreeIff(ws[0]);
      PairedAppend(Join9, head, tail);
      SameParts(Paired(Join9, head), Paired(Join9, tail),
                Samples(Rgb565x18, ws[0], ws[0]), Unpacked(Rgb565x18, ws[1..]));
      assert AllReplicasAgree(ws) <==>
               ReplicasAgree(ws[0]) && ReplicasAgree(Half(ws[0], 1)) && AllReplicasAgree(ws[1..]) by {
        assert ws == [ws[0]] + ws[1..];
      }
    }
  }

  lemma SameParts(a: seq<Word>, b: seq<Word>, c: seq<Word>, d: seq<Word>)
    requires |a| == |c|
    ensures a + b == c + d <==> a == c && b == d
  {
    assert a == (a + b)[..|a|] && b == (a + b)[|a|..] && c == (c + d)[..|c|] && d == (c + d)[|c|..];
  }

  // ----- The comments above the 9-bit unpackers -----

  /** { FIFO[15:11], FIFO[15], FIFO[10:8] } and { FIFO[7:0], FIFO[4] } of a half word, as the comment has them. */
  function CommentHigh9(h: Word): Word { (((h >> 11) & 0x1F) << 4) | (((h >> 15) & 1) << 3) | ((h >> 8) & 7) }
  function CommentLow9(h: Word): Word { ((h & 0xFF) << 1) | ((h >> 4) & 1) }

  /** The samples that the comment above the 9-bit RGB565 unpacker promises. */
  function CommentSamples(w: Word): seq<Word> {
    [CommentHigh9(Half(w, 0)), CommentLow9(Half(w, 0)), CommentHigh9(Half(w, 1)), CommentLow9(Half(w, 1))]
  }

  function CommentUnpacked(ws: seq<Word>): seq<Word> {
    if ws == [] then [] else CommentSamples(ws[0]) + CommentUnpacked(ws[1..])
  }

  /** The bits that the code replicates are equal to those that the comment names. */
  predicate High9CommentHolds(h: Word) { (h >> 13) & 1 == (h >> 15) & 1 }
  predicate Low9CommentHolds(h: Word) { (h >> 7) & 1 == (h >> 4) & 1 }
  predicate CommentHolds(w: Word) {
    && High9CommentHolds(Half(w, 0)) && Low9CommentHolds(Half(w, 0))
    && High9CommentHolds(Half(w, 1)) && Low9CommentHolds(Half(w, 1))
  }

  lemma High9CommentIff(h: Word)
    ensures High9(Byte(h, 1)) == CommentHigh9(h) <==> High9CommentHolds(h)
  {
  }

  lemma Low9CommentIff(h: Word)
    ensures Low9(Byte(h, 0)) == CommentLow9(h) <==> Low9CommentHolds(h)
  {
  }

  lemma LowerBytes(w: Word)
    ensures Byte(Half(w, 0), 1) == Byte(w, 1) && Byte(Half(w, 0), 0) == Byte(w, 0)
  {
  }

  lemma WordCommentIff(w: Word)
    ensures Samples(Rgb565x9, w, w) == CommentSamples(w) <==> CommentHolds(w)
  {
    hide High9, Low9, Byte, Half, To18, CommentHigh9, CommentLow9, High9CommentHolds, Low9CommentHolds, Samples;
    Rgb565NineBitSamples(w);
    LowerBytes(w);
    UpperBytes(w);
    High9CommentIff(Half(w, 0));
    Low9CommentIff(Half(w, 0));
    High9CommentIff(Half(w, 1));
    Low9CommentIff(Half(w, 1));
    SameFour(Samples(Rgb565x9, w, w), CommentSamples(w));
  }

  lemma SameFour(a: seq<Word>, b: seq<Word>)
    requires |a| == |b| == 4
    ensures a == b <==> a[0] == b[0] && a[1] == b[1] && a[2] == b[2] && a[3] == b[3]
  {
  }

  /** The code unpacks what the comment says exactly when every half word has bit 13 = bit 15 and bit 7 = bit 4. */
  lemma {:induction false} CommentHoldsIff(ws: seq<Word>)
    ensures Unpacked(Rgb565x9, ws) == CommentUnpacked(ws) <==> forall w | w in ws :: CommentHolds(w)
  {
    hide Samples, CommentSamples, CommentHolds;
    if ws != [] {
      CommentHoldsIff(ws[1..]);
      CommentSamplesLength(ws[0]);
      WordCommentIff(ws[0]);
      SameParts(Samples(Rgb565x9, ws[0], ws[0]), Unpacked(Rgb565x9, ws[1..]),
                CommentSamples(ws[0]), CommentUnpacked(ws[1..]));
      assert ws == [ws[0]] + ws[1..];
    }
  }

  lemma CommentSamplesLength(w: Word)
    ensures |CommentSamples(w)| == 4
  {
  }

  /** { FIFO[12:10], FIFO[7:2] } and { FIFO[23:18], FIFO[15:13] }, promised by the unswapped XRGB unpacker's comment. */
  function CommentXrgbFirst(w: Word): Word { (((w >> 10) & 7) << 6) | ((w >> 2) & 0x3F) }
  function CommentXrgbSecond(w: Word): Word { (((w >> 18) & 0x3F) << 3) | ((w >> 13) & 7) }

  /** The comments above the two 9-bit XRGB unpackers are exchanged: each describes what the other one does. */
  lemma XrgbCommentsAreExchanged(w: Word)
    ensures Sample(Xrgb9Swap, 0, w, w) == CommentXrgbFirst(w) == Sample(Xrgb9, 1, w, w)
    ensures Sample(Xrgb9Swap, 1, w, w) == CommentXrgbSecond(w) == Sample(Xrgb9, 0, w, w)
  {
  }

  // ----- The swap variants exchange neighbours and nothing else -----

  function Unswapped(f: Format): Format {
    if f.Rgb565x9Swap? then Rgb565x9 else if f.Xrgb9Swap? then Xrgb9 else f
  }

  lemma SwapOneWord(f: Format, w: Word)
    requires f.Rgb565x9Swap? || f.Xrgb9Swap?
    ensures Samples(f, w, w) == Swapped(Samples(Unswapped(f), w, w))
  {
    hide High9, Low9, Byte, Xrgb9High, Xrgb9Low;
    var s := Samples(Unswapped(f), w, w);
    assert Swapped(s) == [s[1], s[0]] + Swapped(s[2..]);
    if |s| == 4 {
      assert Swapped(s[2..]) == [s[3], s[2]] + Swapped(s[2..][2..]);
    }
  }

  lemma {:induction false} SwapExchangesNeighbours(f: Format, ws: seq<Word>)
    requires f.Rgb565x9Swap? || f.Xrgb9Swap?
    ensures Unpacked(f, ws) == Swapped(Unpacked(Unswapped(f), ws))
  {
    hide Samples;
    if ws != [] {
      SwapExchangesNeighbours(f, ws[1..]);
      SwapOneWord(f, ws[0]);
      SwappedAppend(Samples(Unswapped(f), ws[0], ws[0]), Unpacked(Unswapped(f), ws[1..]));
    }
  }

  lemma {:induction false} SwappedTwice(s: seq<Word>)
    ensures Swapped(Swapped(s)) == s
  {
    if |s| >= 2 {
      SwappedTwice(s[2..]);
      assert Swapped(s)[2..] == Swapped(s[2..]);
    }
  }

  /** Undoing the pair swap of the 9-bit RGB565 swap samples and repacking recovers every raw word. */
  lemma SwapLosesNothing(ws: seq<Word>)
    ensures Packed(Rgb565x9, Swapped(Unpacked(Rgb565x9Swap, ws)), ws) == ws
  {
    SwapExchangesNeighbours(Rgb565x9Swap, ws);
    SwappedTwice(Unpacked(Rgb565x9, ws));
    PackedOfUnpacked(Rgb565x9, ws, ws, |ws|);
  }
}
