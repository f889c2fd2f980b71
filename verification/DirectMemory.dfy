/** What direct transfers leave in the device's memory, and when a read-back returns what was written. */
module DirectMemory {
  import opened Words
  import opened Direct

  /** The last of the first `n` words that goes to address `a`, or -1. */
  function LastHit(addr: nat, increment: int, n: nat, a: nat): (h: int)
    ensures -1 <= h < n && (h >= 0 ==> AddrAt(addr, increment, h) == a)
    ensures forall j: nat | h < j < n :: AddrAt(addr, increment, j) != a
  {
    if n == 0 then -1
    else if AddrAt(addr, increment, n - 1) == a then n - 1
    else LastHit(addr, increment, n - 1, a)
  }

  /** The last write to an address wins, for every length and increment; addresses never written keep their value. */
  lemma {:induction false} LastWriteWins(mem: seq<Word>, addr: nat, increment: int, data: seq<Word>, a: nat)
    requires |mem| == ADDRESSES && a < ADDRESSES
    ensures var h := LastHit(addr, increment, |data|, a);
            Written(mem, addr, increment, data)[a] == if h < 0 then mem[a] else Low18(data[h])
  {
    hide AddrAt, Low18;
    if data != [] {
      LastWriteWins(mem, addr, increment, data[..|data| - 1], a);
    }
  }

  function LowBytes(data: seq<Word>): seq<Word> {
    seq(|data|, i requires 0 <= i < |data| => Low8(data[i]))
  }

  lemma LowByteOfField(w: Word)
    ensures Low8(Low18(w)) == Low8(w)
  {
  }

  /** Within 64 steps in one direction no address comes twice. */
  lemma AddressesDiffer(addr: nat, increment: int, i: nat, j: nat)
    requires increment != 0 && i < j < i + ADDRESSES
    ensures AddrAt(addr, increment, i) != AddrAt(addr, increment, j)
  {
    AddressesModulo64(addr, increment, i);
    AddressesModulo64(addr, increment, j);
    hide AddrAt;
    var x, y := addr + Step(increment) * i, addr + Step(increment) * j;
    assert x - y == i - j || x - y == j - i;
    DifferModulo64(x, y);
  }

  lemma DifferModulo64(x: int, y: int)
    requires x - y < ADDRESSES && y - x < ADDRESSES && x != y
    ensures x % ADDRESSES != y % ADDRESSES
  {
    var p, q := x / 64, y / 64;
    assert x == 64 * p + x % 64 && y == 64 * q + y % 64;
  }

  /** After 64 steps, or without an increment after one, the first address comes again. */
  lemma AddressReturns(addr: nat, increment: int)
    ensures AddrAt(addr, increment, if increment == 0 then 1 else ADDRESSES) == AddrAt(addr, increment, 0)
  {
    AddressesModulo64(addr, increment, if increment == 0 then 1 else ADDRESSES);
    AddressesModulo64(addr, increment, 0);
    hide AddrAt, Step;
    OnceAround(addr);
  }

  lemma OnceAround(x: int)
    ensures (x + ADDRESSES) % ADDRESSES == x % ADDRESSES == (x - ADDRESSES) % ADDRESSES
  {
  }

  ghost predicate Returns(mem: seq<Word>, addr: nat, increment: int, data: seq<Word>)
    requires |mem| == ADDRESSES
  {
    ReadBack(Written(mem, addr, increment, data), addr, increment, |data|) == LowBytes(data)
  }

  lemma DistinctAddressesReturn(mem: seq<Word>, addr: nat, increment: int, data: seq<Word>)
    requires |mem| == ADDRESSES && (|data| <= 1 || (increment != 0 && |data| <= ADDRESSES))
    ensures Returns(mem, addr, increment, data)
  {
    hide AddrAt, Low8, Low18, Written;
    var m := Written(mem, addr, increment, data);
    forall i | 0 <= i < |data|
      ensures Low8(m[AddrAt(addr, increment, i)]) == Low8(data[i])
    {
      var h := LastHit(addr, increment, |data|, AddrAt(addr, increment, i));
      if h > i {
        AddressesDiffer(addr, increment, i, h);
      }
      LastWriteWins(mem, addr, increment, data, AddrAt(addr, increment, i));
      LowByteOfField(data[i]);
    }
  }

  /** A 1 followed by zeros: if its address is used again, the 1 is gone. */
  lemma {:induction false} OverwrittenByZero(mem: seq<Word>, addr: nat, increment: int, data: seq<Word>, j: nat)
    requires |mem| == ADDRESSES && 1 <= j < |data| && AddrAt(addr, increment, j) == AddrAt(addr, increment, 0)
    requires forall i | 1 <= i < |data| :: data[i] == 0
    ensures Written(mem, addr, increment, data)[AddrAt(addr, increment, 0)] == Low18(0)
  {
    hide AddrAt, Low18;
    var n := |data| - 1;
    if AddrAt(addr, increment, n) != AddrAt(addr, increment, 0) {
      OverwrittenByZero(mem, addr, increment, data[..n], j);
    }
  }

  ghost predicate AlwaysReturns(addr: nat, increment: int, len: nat) {
    forall mem, data | |mem| == ADDRESSES && |data| == len :: Returns(mem, addr, increment, data)
  }

  /**
   Writing `len` words and reading them back with the same start and increment returns the low byte of every word,
   for all data and any memory, exactly when no address is used twice.
   */
  lemma RoundTripIff(addr: nat, increment: int, len: nat)
    ensures AlwaysReturns(addr, increment, len) <==> len <= 1 || (increment != 0 && len <= ADDRESSES)
  {
    if len <= 1 || (increment != 0 && len <= ADDRESSES) {
      forall mem, data | |mem| == ADDRESSES && |data| == len
        ensures Returns(mem, addr, increment, data)
      {
        DistinctAddressesReturn(mem, addr, increment, data);
      }
    } else {
      var mem, data := seq(ADDRESSES, i => 0), [1] + seq(len - 1, i => 0);
      AddressReturns(addr, increment);
      OverwrittenByZero(mem, addr, increment, data, if increment == 0 then 1 else ADDRESSES);
      assert LowBytes(data)[0] == Low8(1) != Low8(Low18(0));
      assert ReadBack(Written(mem, addr, increment, data), addr, increment, len)[0] == Low8(Low18(0));
      assert !Returns(mem, addr, increment, data);
    }
  }

  /**
   The two workers one after the other, each run to its end: `words` is what the caller reads back, after exactly
   one transfer for every word written and one for every word read.
   */
  lemma WorkersRoundTrip(s: State, t: State, u: State, addr: nat, increment: int, data: seq<Word>, words: seq<Word>)
    requires Ok(s) && Ok(t) && AllSent(s, t, addr, increment, data)
    requires AllRead(t, u, addr, increment, words) && |words| == |data|
    ensures |data| <= 1 || (increment != 0 && |data| <= ADDRESSES) ==> words == LowBytes(data)
    ensures u.mem == Written(s.mem, addr, increment, data)
    ensures |u.log| == |s.log| + 2 * |data|
  {
    if |data| <= 1 || (increment != 0 && |data| <= ADDRESSES) {
      DistinctAddressesReturn(s.mem, addr, increment, data);
    }
  }
}
