/** The enable and pending state of the interrupt lines, reached only through
    write-one-to-set and write-one-to-clear registers, as in core_armv81mml.h. */
module NvicLines {
  import opened Words

  /** The bits behind ISER/ICER and behind ISPR/ICPR.  Writing a word to the set register
      ors it in, writing it to the clear register masks it out, reading either gives it. */
  datatype Lines = Lines(enabled: seq<word>, pending: seq<word>) {
    predicate Ok() {
      |enabled| == |pending| <= 16
    }
  }

  datatype Op = Enable(irq: int) | Disable(irq: int) | SetPending(irq: int) | ClearPending(irq: int)

  /** Negative numbers are system exceptions, which the functions ignore. */
  predicate ValidIrq(irq: int, words: nat) {
    -16 <= irq < 32 * words
  }

  function Word(irq: int): nat {
    Shr(Wrap(irq), 5)
  }

  function Mask(irq: int): word {
    Shl(1, And(Wrap(irq), 0x1F))
  }

  function SetBits(w: word, v: word): word {
    Pow2Of32(); OrBelow(w, v, 32);
    Or(w, v)
  }

  function ClearBits(w: word, v: word): word {
    And(w, Not(v))
  }

  lemma LineIndex(irq: int)
    requires 0 <= irq < 512
    ensures Word(irq) == irq / 32 && Mask(irq) == Pow2(irq % 32)
  {
    WrapOnce(irq);
    SplitIndex(irq);
    OneShifted(irq % 32);
  }

  lemma SplitIndex(w: word)
    ensures Shr(w, 5) == w / 32 && And(w, 0x1F) == w % 32
  {
    assert Pow2(5) == 32;
    MaskIsModulo(w, 5);
    ShrIsDivide(w, 5);
  }

  lemma OneShifted(n: nat)
    requires n < 32
    ensures Shl(1, n) == Pow2(n)
  {
    Pow2Of32();
    Pow2Monotone(n, 31);
    ShlIsTimes(1, n);
  }

  function Apply(s: Lines, op: Op): (s': Lines)
    requires s.Ok() && ValidIrq(op.irq, |s.enabled|)
    ensures s'.Ok() && |s'.enabled| == |s.enabled|
  {
    if op.irq < 0 then s
    else
      LineIndex(op.irq);
      var k, m := Word(op.irq), Mask(op.irq);
      match op
      case Enable(_) => s.(enabled := s.enabled[k := SetBits(s.enabled[k], m)])
      case Disable(_) => s.(enabled := s.enabled[k := ClearBits(s.enabled[k], m)])
      case SetPending(_) => s.(pending := s.pending[k := SetBits(s.pending[k], m)])
      case ClearPending(_) => s.(pending := s.pending[k := ClearBits(s.pending[k], m)])
  }

  function GetBit(bank: seq<word>, irq: int): nat
    requires |bank| <= 16 && ValidIrq(irq, |bank|)
  {
    if irq < 0 then 0
    else
      LineIndex(irq);
      if And(bank[Word(irq)], Mask(irq)) != 0 then 1 else 0
  }

  /** `__NVIC_GetEnableIRQ`. */
  function GetEnable(s: Lines, irq: int): nat
    requires s.Ok() && ValidIrq(irq, |s.enabled|)
  {
    GetBit(s.enabled, irq)
  }

  /** `__NVIC_GetPendingIRQ`. */
  function GetPending(s: Lines, irq: int): nat
    requires s.Ok() && ValidIrq(irq, |s.pending|)
  {
    GetBit(s.pending, irq)
  }

  function Run(s: Lines, ops: seq<Op>): (s': Lines)
    requires s.Ok() && forall op :: op in ops ==> ValidIrq(op.irq, |s.enabled|)
    ensures s'.Ok() && |s'.enabled| == |s.enabled|
  {
    if ops == [] then s else Apply(Run(s, ops[..|ops| - 1]), ops[|ops| - 1])
  }

  /** What a call leaves a line as, if it was `was`. */
  function EnableAfter(op: Op, irq: int, was: nat): nat {
    if op == Enable(irq) then 1 else if op == Disable(irq) then 0 else was
  }

  function PendingAfter(op: Op, irq: int, was: nat): nat {
    if op == SetPending(irq) then 1 else if op == ClearPending(irq) then 0 else was
  }

  /** The specification: what the last call that concerns this line left it as. */
  function LastEnable(ops: seq<Op>, irq: int, initial: nat): nat {
    if ops == [] then initial else EnableAfter(ops[|ops| - 1], irq, LastEnable(ops[..|ops| - 1], irq, initial))
  }

  function LastPending(ops: seq<Op>, irq: int, initial: nat): nat {
    if ops == [] then initial else PendingAfter(ops[|ops| - 1], irq, LastPending(ops[..|ops| - 1], irq, initial))
  }

  /** A Get reads bit `irq % 32` of word `irq / 32`. */
  lemma GetReadsBit(bank: seq<word>, irq: int)
    requires |bank| <= 16 && 0 <= irq < 32 * |bank|
    ensures GetBit(bank, irq) == if Bit(bank[irq / 32], irq % 32) then 1 else 0
  {
    LineIndex(irq);
    TestBit(bank[irq / 32], irq % 32);
  }

  /** One write to one word moves one bit. */
  lemma WriteOneBit(bank: seq<word>, irq: int, j: int)
    requires |bank| <= 16 && 0 <= irq < 32 * |bank| && ValidIrq(j, |bank|)
    ensures Word(irq) < |bank|
    ensures GetBit(bank[Word(irq) := SetBits(bank[Word(irq)], Mask(irq))], j)
         == if j == irq then 1 else GetBit(bank, j)
    ensures GetBit(bank[Word(irq) := ClearBits(bank[Word(irq)], Mask(irq))], j)
         == if j == irq then 0 else GetBit(bank, j)
  {
    LineIndex(irq);
    if j >= 0 {
      LineIndex(j);
      var w, m, t := bank[irq / 32], Pow2(irq % 32), j % 32;
      TestBit(SetBits(w, m), t);
      TestBit(ClearBits(w, m), t);
      TestBit(w, t);
      BitOfOr(w, m, t);
      BitOfAnd(w, Not(m), t);
      BitOfNot(m, t);
      BitOfPow2(irq % 32, t);
    }
  }

  lemma ApplyAt(s: Lines, op: Op, j: int)
    requires s.Ok() && ValidIrq(op.irq, |s.enabled|) && ValidIrq(j, |s.enabled|)
    ensures GetEnable(Apply(s, op), j) == if j < 0 then 0 else EnableAfter(op, j, GetEnable(s, j))
    ensures GetPending(Apply(s, op), j) == if j < 0 then 0 else PendingAfter(op, j, GetPending(s, j))
  {
    if op.irq >= 0 {
      WriteOneBit(s.enabled, op.irq, j);
      WriteOneBit(s.pending, op.irq, j);
    }
  }

  /** Every line after one call. */
  lemma EachLine(s: Lines, op: Op)
    requires s.Ok() && ValidIrq(op.irq, |s.enabled|)
    ensures forall j :: ValidIrq(j, |s.enabled|) ==>
              && GetEnable(Apply(s, op), j) == (if j < 0 then 0 else EnableAfter(op, j, GetEnable(s, j)))
              && GetPending(Apply(s, op), j) == (if j < 0 then 0 else PendingAfter(op, j, GetPending(s, j)))
  {
    forall j | ValidIrq(j, |s.enabled|)
      ensures GetEnable(Apply(s, op), j) == (if j < 0 then 0 else EnableAfter(op, j, GetEnable(s, j)))
      ensures GetPending(Apply(s, op), j) == (if j < 0 then 0 else PendingAfter(op, j, GetPending(s, j)))
    {
      ApplyAt(s, op, j);
    }
  }

  /** After any calls at all, each Get returns 1 exactly when the last matching call on that
      line was the setting one; no other line and no other bank has a say, and exceptions
      always read 0. */
  lemma {:induction false} GetReturnsLastCall(s: Lines, ops: seq<Op>, j: int)
    requires s.Ok() && ValidIrq(j, |s.enabled|)
    requires forall op :: op in ops ==> ValidIrq(op.irq, |s.enabled|)
    ensures GetEnable(Run(s, ops), j) == (if j < 0 then 0 else LastEnable(ops, j, GetEnable(s, j)))
    ensures GetPending(Run(s, ops), j) == (if j < 0 then 0 else LastPending(ops, j, GetPending(s, j)))
    decreases |ops|
  {
    if ops != [] {
      var front, op := ops[..|ops| - 1], ops[|ops| - 1];
      GetReturnsLastCall(s, front, j);
      ApplyAt(Run(s, front), op, j);
    }
  }

  /** The registers: each method is one write, as the hardware takes it. */
  class NvicRegisters {
    const enabled: array<word>
    const pending: array<word>

    ghost predicate Valid() {
      enabled.Length == pending.Length <= 16 && enabled != pending
    }

    ghost function View(): Lines
      reads enabled, pending
    {
      Lines(enabled[..], pending[..])
    }

    constructor (words: nat)
      requires words <= 16
      ensures Valid() && enabled.Length == words && fresh(enabled) && fresh(pending)
      ensures forall k :: 0 <= k < words ==> enabled[k] == 0 && pending[k] == 0
    {
      enabled, pending := new word[words](_ => 0), new word[words](_ => 0);
    }

    method EnableIRQ(irq: int)
      requires Valid() && ValidIrq(irq, enabled.Length)
      modifies enabled
      ensures View() == Apply(old(View()), Enable(irq))
      ensures forall j :: ValidIrq(j, enabled.Length) ==>
                GetEnable(View(), j) == if j == irq && irq >= 0 then 1 else old(GetEnable(View(), j))
    {
      ghost var before := View();
      if irq >= 0 {
        LineIndex(irq);
        enabled[Word(irq)] := SetBits(enabled[Word(irq)], Mask(irq));
      }
      EachLine(before, Enable(irq));
    }

    method DisableIRQ(irq: int)
      requires Valid() && ValidIrq(irq, enabled.Length)
      modifies enabled
      ensures View() == Apply(old(View()), Disable(irq))
      ensures forall j :: ValidIrq(j, enabled.Length) ==>
                GetEnable(View(), j) == if j == irq && irq >= 0 then 0 else old(GetEnable(View(), j))
    {
      ghost var before := View();
      if irq >= 0 {
        LineIndex(irq);
        enabled[Word(irq)] := ClearBits(enabled[Word(irq)], Mask(irq));
      }
      EachLine(before, Disable(irq));
    }

    method SetPendingIRQ(irq: int)
      requires Valid() && ValidIrq(irq, enabled.Length)
      modifies pending
      ensures View() == Apply(old(View()), SetPending(irq))
      ensures forall j :: ValidIrq(j, enabled.Length) ==>
                GetPending(View(), j) == if j == irq && irq >= 0 then 1 else old(GetPending(View(), j))
    {
      ghost var before := View();
      if irq >= 0 {
        LineIndex(irq);
        pending[Word(irq)] := SetBits(pending[Word(irq)], Mask(irq));
      }
      EachLine(before, SetPending(irq));
    }

    method ClearPendingIRQ(irq: int)
      requires Valid() && ValidIrq(irq, enabled.Length)
      modifies pending
      ensures View() == Apply(old(View()), ClearPending(irq))
      ensures forall j :: ValidIrq(j, enabled.Length) ==>
                GetPending(View(), j) == if j == irq && irq >= 0 then 0 else old(GetPending(View(), j))
    {
      ghost var before := View();
      if irq >= 0 {
        LineIndex(irq);
        pending[Word(irq)] := ClearBits(pending[Word(irq)], Mask(irq));
      }
      EachLine(before, ClearPending(irq));
    }
  }
}
