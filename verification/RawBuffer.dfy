/** The raw FIFO buffer of a context: allocated words, recorded size, and what a history of calls makes of them. */
module RawBuffer {
  import opened Words

  const INITIAL_WORDS: nat := 1024

  class RawBuf {
    var buf: array<Word>
    var size: nat

    ghost predicate Valid()
      reads this
    {
      size == buf.Length
    }

    /** `smi_init_cxt_map`: 1024 words. */
    constructor ()
      ensures Valid() && size == INITIAL_WORDS && fresh(buf)
    {
      buf := new Word[INITIAL_WORDS];
      size := INITIAL_WORDS;
    }

    /** `realloc`: `granted` is the allocator's answer. The common prefix is kept; a refusal changes nothing. */
    method Realloc(n: nat, granted: bool)
      requires Valid()
      modifies this
      ensures Valid()
      ensures granted ==> size == n && fresh(buf) && buf[..Min(n, old(size))] == old(buf[..Min(n, size)])
      ensures !granted ==> size == old(size) && buf == old(buf)
      ensures old(buf)[..] == old(buf[..])
    {
      if granted {
        var new_buf := new Word[n];
        var keep := Min(n, size);
        for i := 0 to keep
          invariant buf == old(buf) && size == old(size) && buf[..] == old(buf[..])
          invariant new_buf[..i] == buf[..i]
        {
          new_buf[i] := buf[i];
        }
        buf, size := new_buf, n;
      }
    }

    /** `smi_resize_raw_buffer`. */
    method Resize(len: nat, granted: bool) returns (r: int)
      requires Valid()
      modifies this
      ensures Valid() && size == NextSize(old(size), Resizing(len, granted))
      ensures r == if len == 0 then SMI_ERR_BUF_TO_SMALL else if granted then SMI_OK else SMI_ERR_ALLOC_FAIL
      ensures r == SMI_OK ==> fresh(buf) && buf[..Min(len, old(size))] == old(buf[..Min(len, size)])
      ensures r != SMI_OK ==> buf == old(buf)
    {
      if len == 0 {
        return SMI_ERR_BUF_TO_SMALL;
      }
      Realloc(len, granted);
      r := if granted then SMI_OK else SMI_ERR_ALLOC_FAIL;
    }

    /** The growth step of `smi_programmed_read_arr`. */
    method Reserve(words: nat, granted: bool) returns (ok: bool)
      requires Valid()
      modifies this
      ensures Valid() && size == NextSize(old(size), Reading(words, granted))
      ensures ok <==> words <= size
      ensures buf == old(buf) || fresh(buf)
      ensures buf != old(buf) ==> size == words > old(size)
      ensures buf[..old(size)] == old(buf[..])
    {
      if words > size {
        Realloc(words, granted);
        return granted;
      }
      return true;
    }

    /** One call; `passed` says whether it went through. */
    method Perform(op: Op) returns (passed: bool)
      requires Valid()
      modifies this
      ensures Valid() && size == NextSize(old(size), op)
      ensures passed == Passes(old(size), op)
    {
      match op
      case Reading(words, granted) =>
        passed := Reserve(words, granted);
      case Resizing(len, granted) =>
        var r := Resize(len, granted);
        passed := r == SMI_OK;
    }

    /**
     A history of calls. The size is what the history makes of it, and each call goes through exactly when the size
     that the calls before it have left and the allocator's answer let it.
     */
    method Replay(ops: seq<Op>) returns (passed: seq<bool>)
      requires Valid()
      modifies this
      ensures Valid() && size == SizeAfter(old(size), ops)
      ensures |passed| == |ops|
      ensures forall i | 0 <= i < |ops| :: passed[i] <==> Passes(SizeAfter(old(size), ops[..i]), ops[i])
    {
      hide NextSize, Passes, SizeAfter;
      passed := [];
      NoOpsYet(size, ops);
      for i := 0 to |ops|
        invariant Valid() && size == SizeAfter(old(size), ops[..i])
        invariant |passed| == i
        invariant forall k | 0 <= k < i :: passed[k] <==> Passes(SizeAfter(old(size), ops[..k]), ops[k])
      {
        OneOpMore(old(size), ops, i);
        var ok := Perform(ops[i]);
        passed := passed + [ok];
      }
      assert ops[..|ops|] == ops;
    }
  }

  // ----- Histories -----

  /** One call that may change the buffer, with the allocator's answer. */
  datatype Op = Reading(words: nat, granted: bool) | Resizing(len: nat, granted: bool)

  function NextSize(size: nat, op: Op): nat {
    match op
    case Reading(words, granted) => if words > size && granted then words else size
    case Resizing(len, granted) => if len > 0 && granted then len else size
  }

  /** Whether a call goes through: a read finds its words fit, a resize reports success. */
  predicate Passes(size: nat, op: Op) {
    match op
    case Reading(words, granted) => granted || words <= size
    case Resizing(len, granted) => granted && len > 0
  }

  function SizeAfter(size: nat, ops: seq<Op>): nat {
    if ops == [] then size else NextSize(SizeAfter(size, ops[..|ops| - 1]), ops[|ops| - 1])
  }

  lemma NoOpsYet(size: nat, ops: seq<Op>)
    ensures SizeAfter(size, ops[..0]) == size
  {
  }

  lemma OneOpMore(size: nat, ops: seq<Op>, i: nat)
    requires i < |ops|
    ensures SizeAfter(size, ops[..i + 1]) == NextSize(SizeAfter(size, ops[..i]), ops[i])
  {
    assert ops[..i + 1][..i] == ops[..i];
  }

  predicate Resets(op: Op) { op.Resizing? && op.len > 0 && op.granted }

  /** The most words any read of the history was granted. */
  function MostGranted(ops: seq<Op>): nat {
    if ops == [] then 0
    else
      var op, m := ops[|ops| - 1], MostGranted(ops[..|ops| - 1]);
      if op.Reading? && op.granted then Max(m, op.words) else m
  }

  /** Between two effective resizes the size is the running maximum of what was there and what reads asked for. */
  lemma {:induction false} SizeIsRunningMaximum(size: nat, ops: seq<Op>)
    requires forall op | op in ops :: !Resets(op)
    ensures SizeAfter(size, ops) == Max(size, MostGranted(ops))
  {
    if ops != [] {
      SizeIsRunningMaximum(size, ops[..|ops| - 1]);
      assert ops[|ops| - 1] in ops;
    }
  }

  lemma {:induction false} SizeAfterConcat(size: nat, a: seq<Op>, b: seq<Op>)
    ensures SizeAfter(size, a + b) == SizeAfter(SizeAfter(size, a), b)
  {
    if b == [] {
      assert a + b == a;
    } else {
      assert (a + b)[..|a + b| - 1] == a + b[..|b| - 1];
      SizeAfterConcat(size, a, b[..|b| - 1]);
    }
  }

  /** After any history the size is fixed by the last effective resize and the reads since. */
  lemma SizeSinceResize(size: nat, before: seq<Op>, len: nat, after: seq<Op>)
    requires len > 0 && forall op | op in after :: !Resets(op)
    ensures SizeAfter(size, before + [Resizing(len, true)] + after) == Max(len, MostGranted(after))
  {
    var reset := [Resizing(len, true)];
    SizeAfterConcat(size, before + reset, after);
    SizeAfterConcat(size, before, reset);
    assert reset[..0] == [];
    SizeIsRunningMaximum(len, after);
  }
}
