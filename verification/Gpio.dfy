/**
 `gpio_mode` of src/gpio.c: ten 3-bit mode fields to a function-select register, updated in place by mask and shift,
 as a map from pins to modes; and `smi_8b_init` of src/smi.c on top of it.
 */
module Gpio {
  import opened Words

  const GPIO_ALT1: Word := 5
  const PINS_PER_REG: nat := 10
  const SMI_PINS: nat := 26

  /** `(pin % 10) * 3`, as the shift amount of a 32-bit word. */
  function Shift(k: nat): (s: Word)
    requires k < PINS_PER_REG
    ensures s <= 27
  {
    match k
    case 0 => 0 case 1 => 3 case 2 => 6 case 3 => 9 case 4 => 12
    case 5 => 15 case 6 => 18 case 7 => 21 case 8 => 24 case 9 => 27
  }

  function At(r: Word, shift: Word): Word
    requires shift <= 27
  {
    (r >> shift) & 7
  }

  function Mask(shift: Word): Word
    requires shift <= 27
  {
    7 << shift
  }

  function Placed(mode: Word, shift: Word): Word
    requires shift <= 27
  {
    mode << shift
  }

  function Inside(r: Word, mask: Word): Word { r & mask }
  function Outside(r: Word, mask: Word): Word { r & !mask }
  function Or(x: Word, y: Word): Word { x | y }

  function Updated(r: Word, shift: Word, mode: Word): Word
    requires shift <= 27
  {
    Or(Outside(r, Mask(shift)), Placed(mode, shift))
  }

  function Field(r: Word, k: nat): Word
    requires k < PINS_PER_REG
  {
    At(r, Shift(k))
  }

  function Put(r: Word, k: nat, mode: Word): Word
    requires k < PINS_PER_REG
  {
    Updated(r, Shift(k), mode)
  }

  /** The bits of a register that belong to no pin. */
  function Reserved(r: Word): Word { r & 0xC0000000 }

  // ----- Bits: fields three apart do not touch each other -----

  predicate ThreeBits(m: Word) { m & !7 == 0 }

  predicate Apart(s: Word, t: Word) { s <= 27 && t <= 27 && (s + 3 <= t || t + 3 <= s) }

  lemma SameBits(r: Word, s: Word, mode: Word)
    requires s <= 27 && ThreeBits(mode)
    ensures At(Updated(r, s, mode), s) == mode
  {
  }

  lemma ReservedBits(r: Word, s: Word, mode: Word)
    requires s <= 27 && ThreeBits(mode)
    ensures Reserved(Updated(r, s, mode)) == Reserved(r)
  {
  }

  lemma ModeIsElsewhere(s: Word, t: Word, mode: Word)
    requires Apart(s, t) && ThreeBits(mode)
    ensures At(Placed(mode, s), t) == 0
  {
  }

  lemma FieldIsElsewhere(r: Word, s: Word, t: Word)
    requires Apart(s, t)
    ensures At(Inside(r, Mask(s)), t) == 0
  {
  }

  lemma OrZeroBits(x: Word, y: Word, t: Word)
    requires t <= 27 && (y >> t) & 7 == 0
    ensures ((x | y) >> t) & 7 == (x >> t) & 7
  {
  }

  lemma OrZero(x: Word, y: Word, t: Word)
    requires t <= 27 && At(y, t) == 0
    ensures At(Or(x, y), t) == At(x, t)
  {
    OrZeroBits(x, y, t);
  }

  lemma Recombine(r: Word, mask: Word)
    ensures Or(Outside(r, mask), Inside(r, mask)) == r
  {
  }

  lemma OtherBits(r: Word, s: Word, t: Word, mode: Word)
    requires Apart(s, t) && ThreeBits(mode)
    ensures At(Updated(r, s, mode), t) == At(r, t)
  {
    hide At, ThreeBits, Or, Inside, Outside, Mask, Placed;
    var rest := Outside(r, Mask(s));
    ModeIsElsewhere(s, t, mode);
    FieldIsElsewhere(r, s, t);
    OrZero(rest, Placed(mode, s), t);
    OrZero(rest, Inside(r, Mask(s)), t);
    Recombine(r, Mask(s));
  }

  lemma ShiftStep(k: nat)
    requires k + 1 < PINS_PER_REG
    ensures Shift(k + 1) == Shift(k) + 3 && Shift(k) <= 24
  {
  }

  lemma {:induction false} ShiftsApart(k: nat, j: nat)
    requires k < j < PINS_PER_REG
    ensures Shift(k) + 3 <= Shift(j) && Shift(k) <= 24
  {
    hide Shift;
    ShiftStep(k);
    if j > k + 1 {
      ShiftsApart(k, j - 1);
      ShiftStep(j - 1);
    }
  }

  /** Writing one field sets that field, and leaves every other field and the reserved bits alone. */
  lemma FieldOfPut(r: Word, k: nat, j: nat, mode: Word)
    requires k < PINS_PER_REG && j < PINS_PER_REG && ThreeBits(mode)
    ensures Field(Put(r, k, mode), j) == if j == k then mode else Field(r, j)
    ensures Reserved(Put(r, k, mode)) == Reserved(r)
  {
    hide Shift, Reserved, At, Updated, ThreeBits;
    ReservedBits(r, Shift(k), mode);
    if j == k {
      SameBits(r, Shift(k), mode);
    } else {
      if k < j {
        ShiftsApart(k, j);
      } else {
        ShiftsApart(j, k);
      }
      OtherBits(r, Shift(k), Shift(j), mode);
    }
  }

  // ----- The registers as a map from pins to modes -----

  /** The mode of every pin that the registers have a field for. */
  function Modes(regs: seq<Word>): (m: seq<Word>)
    ensures |m| == |regs| * PINS_PER_REG
  {
    seq(|regs| * PINS_PER_REG, p requires 0 <= p < |regs| * PINS_PER_REG =>
      Field(regs[p / PINS_PER_REG], p % PINS_PER_REG))
  }

  function AllReserved(regs: seq<Word>): seq<Word> {
    seq(|regs|, i requires 0 <= i < |regs| => Reserved(regs[i]))
  }

  function WithMode(regs: seq<Word>, pin: nat, mode: Word): seq<Word>
    requires pin / PINS_PER_REG < |regs|
  {
    regs[pin / PINS_PER_REG := Put(regs[pin / PINS_PER_REG], pin % PINS_PER_REG, mode)]
  }

  /** Updating the register is updating the map at one pin. */
  lemma UpdateIsMapUpdate(regs: seq<Word>, pin: nat, mode: Word)
    requires pin / PINS_PER_REG < |regs| && ThreeBits(mode)
    ensures pin < |Modes(regs)| && Modes(WithMode(regs, pin, mode)) == Modes(regs)[pin := mode]
    ensures AllReserved(WithMode(regs, pin, mode)) == AllReserved(regs)
  {
    hide Field, Put, Reserved, ThreeBits;
    var i, k := pin / PINS_PER_REG, pin % PINS_PER_REG;
    var after := WithMode(regs, pin, mode);
    FieldOfPut(regs[i], k, k, mode);
    forall p | 0 <= p < |regs| * PINS_PER_REG
      ensures Modes(after)[p] == Modes(regs)[pin := mode][p]
    {
      FieldOfPut(regs[i], k, p % PINS_PER_REG, mode);
    }
  }

  /** `gpio_mode`, on the array of function-select registers. */
  method GpioMode(regs: array<Word>, pin: nat, mode: Word)
    requires pin / PINS_PER_REG < regs.Length && ThreeBits(mode)
    modifies regs
    ensures pin < |old(Modes(regs[..]))| && Modes(regs[..]) == old(Modes(regs[..]))[pin := mode]
    ensures AllReserved(regs[..]) == old(AllReserved(regs[..]))
  {
    UpdateIsMapUpdate(regs[..], pin, mode);
    var i, k := pin / PINS_PER_REG, pin % PINS_PER_REG;
    regs[i] := Put(regs[i], k, mode);
    assert regs[..] == WithMode(old(regs[..]), pin, mode);
  }

  /** `smi_8b_init`: pins 0 to 25 become ALT1, and no other pin and no reserved bit changes. */
  method Smi8bInit(regs: array<Word>)
    requires SMI_PINS <= regs.Length * PINS_PER_REG
    modifies regs
    ensures Modes(regs[..]) == FirstPins(old(Modes(regs[..])), SMI_PINS)
    ensures AllReserved(regs[..]) == old(AllReserved(regs[..]))
  {
    hide Modes, AllReserved, FirstPins;
    ModesLength(regs[..]);
    ghost var before := Modes(regs[..]);
    NoPinsYet(before);
    for i := 0 to SMI_PINS
      invariant Modes(regs[..]) == FirstPins(before, i)
      invariant AllReserved(regs[..]) == old(AllReserved(regs[..]))
    {
      FirstPinsGrow(before, i);
      GpioMode(regs, i, GPIO_ALT1);
    }
  }

  /** A pin map with the first `n` pins in mode ALT1. */
  function FirstPins(m: seq<Word>, n: nat): seq<Word>
    requires n <= |m|
  {
    seq(n, i => GPIO_ALT1) + m[n..]
  }

  lemma NoPinsYet(m: seq<Word>)
    ensures FirstPins(m, 0) == m
  {
  }

  lemma FirstPinsGrow(m: seq<Word>, n: nat)
    requires n < |m|
    ensures n < |FirstPins(m, n)| && FirstPins(m, n)[n := GPIO_ALT1] == FirstPins(m, n + 1)
  {
  }

  lemma ModesLength(regs: seq<Word>)
    ensures |Modes(regs)| == |regs| * PINS_PER_REG
  {
  }
}
