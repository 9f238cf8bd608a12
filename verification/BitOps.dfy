/** The software bit intrinsics of the CMSIS compiler headers. */
module BitOps {
  import opened Options
  import opened Words

  // ---------------------------------------------------------------- bit reversal

  /** Bit `i` of `r` is bit `31 - i` of `v`. */
  ghost predicate IsReversal(r: word, v: word) {
    forall i: nat :: i < 32 ==> Bit(r, i) == Bit(v, 31 - i)
  }

  /** What both `__RBIT` loops keep with `s` shifts still owed: `value` holds the bits not yet
      read, and the low `32 - s` bits of the accumulator are the reversal of those that were.
      The unmasked high bits it starts with are never cleared, only shifted out at the end. */
  ghost predicate PartlyReversed(v: word, value: word, r: word, s: nat)
    requires s < 32
  {
    && (forall i: nat :: i < 32 ==> Bit(value, i) == (i < s && Bit(v, i + (32 - s))))
    && (forall i: nat :: i < 32 - s ==> Bit(r, i) == Bit(v, 31 - s - i))
  }

  lemma StartReversal(v: word)
    ensures PartlyReversed(v, v / 2, v, 31)
  {
    forall i: nat | i < 32
      ensures Bit(v / 2, i) == (i < 31 && Bit(v, i + 1))
    {
      if i == 31 {
        Pow2Of32();
        HighBitsClear(v, 32, 32);
      }
    }
  }

  lemma StepReversal(v: word, value: word, r: word, s: nat)
    requires 1 <= s < 32
    requires PartlyReversed(v, value, r, s)
    ensures Or(Wrap(2 * r), And(value, 1)) < 0x1_0000_0000
    ensures PartlyReversed(v, value / 2, Or(Wrap(2 * r), And(value, 1)), s - 1)
  {
    var r' := Or(Wrap(2 * r), And(value, 1));
    Pow2Of32();
    OrBelow(Wrap(2 * r), And(value, 1), 32);
    forall i: nat | i < 32
      ensures Bit(value / 2, i) == (i < s - 1 && Bit(v, i + (32 - (s - 1))))
    {
      assert Bit(value / 2, i) == Bit(value, i + 1);
      if i == 31 {
        HighBitsClear(value, 32, 32);
      }
    }
    forall i: nat | i < 32 - (s - 1)
      ensures Bit(r', i) == Bit(v, 31 - (s - 1) - i)
    {
      BitOfDouble(r, i);
      BitOfOr(Wrap(2 * r), And(value, 1), i);
      BitOfAnd(value, 1, i);
      assert Bit(1, i) == (i == 0) by { if i != 0 { BitOfZero(i - 1); } }
    }
  }

  /** Leaving early is sound, since every bit not read is zero; and the counter has not
      reached zero while a bit is left. */
  lemma FinishReversal(v: word, value: word, r: word, s: nat)
    requires s < 32
    requires PartlyReversed(v, value, r, s)
    ensures value == 0 ==> IsReversal(Shl(r, s), v)
    ensures value != 0 ==> 1 <= s
  {
    if value == 0 {
      forall i: nat | i < 32
        ensures Bit(Shl(r, s), i) == Bit(v, 31 - i)
      {
        BitOfShl(r, s, i);
        if i < s {
          BitOfZero(s - 1 - i);
          assert !Bit(value, s - 1 - i);
        }
      }
    } else if s == 0 {
      forall i: nat | i < 32
        ensures Bit(value, i) == Bit(0, i)
      {
        BitOfZero(i);
      }
      WordExtensionality(value, 0);
    }
  }

  /** `__RBIT` of cmsis_gcc.h.  The counter is a `uint32_t`. */
  method RbitGcc(v: word) returns (result: word)
    ensures IsReversal(result, v)
  {
    var value: word := v;
    var s: word := 4 * 8 - 1;
    result := value;
    StartReversal(v);
    value := value / 2;
    while value != 0
      invariant s < 32
      invariant PartlyReversed(v, value, result, s)
      decreases value
    {
      FinishReversal(v, value, result, s);
      StepReversal(v, value, result, s);
      result := Wrap(2 * result);
      result := Or(result, And(value, 1));
      s := s - 1;
      value := value / 2;
    }
    FinishReversal(v, value, result, s);
    result := Shl(result, s);
  }

  /** `__RBIT` of cmsis_iccarm.h.  The counter is a `uint8_t`. */
  method RbitIar(data: word) returns (reversed: word)
    ensures IsReversal(reversed, data)
  {
    var v: word := data;
    var sc: bv8 := 31;
    ghost var owed := 31;
    var r: word := v;
    StartReversal(data);
    v := v / 2;
    while v != 0
      invariant sc as nat == owed < 32
      invariant PartlyReversed(data, v, r, owed)
      decreases v
    {
      FinishReversal(data, v, r, owed);
      StepReversal(data, v, r, owed);
      r := Wrap(2 * r);
      r := Or(r, And(v, 1));
      sc := sc - 1;
      owed := owed - 1;
      v := v / 2;
    }
    FinishReversal(data, v, r, owed);
    return Shl(r, sc as nat);
  }

  /** A word has one reversal, so the GCC and IAR loops agree. */
  lemma ReversalUnique(a: word, b: word, v: word)
    requires IsReversal(a, v) && IsReversal(b, v)
    ensures a == b
  {
    WordExtensionality(a, b);
  }

  lemma ReversalSymmetric(r: word, v: word)
    requires IsReversal(r, v)
    ensures IsReversal(v, r)
  {
    forall i: nat | i < 32
      ensures Bit(v, i) == Bit(r, 31 - i)
    {
      assert Bit(r, 31 - i) == Bit(v, 31 - (31 - i));
    }
  }

  /** Reversing twice gives the word back. */
  lemma ReversalInvolution(v: word, r: word, w: word)
    requires IsReversal(r, v) && IsReversal(w, r)
    ensures w == v
  {
    ReversalSymmetric(r, v);
    ReversalUnique(w, v, r);
  }

  lemma ReversalOfZero()
    ensures IsReversal(0, 0)
  {
    forall i: nat | i < 32
      ensures Bit(0, i) == Bit(0, 31 - i)
    {
      BitOfZero(i);
      BitOfZero(31 - i);
    }
  }

  // ---------------------------------------------------------------- leading and trailing zeros

  /** `c` is the number of leading zeros of `v`. */
  ghost predicate IsClz(v: word, c: nat) {
    if v == 0 then c == 32 else c < 32 && Pow2(31 - c) <= v < Pow2(32 - c)
  }

  /** `c` is the number of trailing zeros of `v`. */
  ghost predicate IsCtz(v: word, c: nat) {
    if v == 0 then c == 32 else c < 32 && Bit(v, c) && forall i: nat :: i < c ==> !Bit(v, i)
  }

  /** `__CLZ` of cmsis_iccarm.h. */
  method Clz(data: word) returns (leading: nat)
    ensures IsClz(data, leading)
  {
    if data == 0 {
      return 32;
    }
    Pow2Of32();
    var count: word := 0;
    var mask: word := 0x8000_0000;
    while And(data, mask) == 0
      invariant count < 32
      invariant mask == Pow2(31 - count)
      invariant data < Pow2(32 - count)
      decreases 32 - count
    {
      TopBit(data, 31 - count);
      count := count + 1;
      mask := mask / 2;
    }
    TopBit(data, 31 - count);
    return count;
  }

  /** Below 2^(k+1), bit k alone tells whether a number is below 2^k. */
  lemma {:induction false} TopBit(v: nat, k: nat)
    requires v < Pow2(k + 1)
    ensures And(v, Pow2(k)) == 0 <==> v < Pow2(k)
    decreases k
  {
    if k != 0 {
      TopBit(v / 2, k - 1);
    }
  }

  lemma {:induction false} LeadingBit(v: nat, k: nat)
    requires Pow2(k) <= v < Pow2(k + 1)
    ensures Bit(v, k)
    decreases k
  {
    if k != 0 {
      LeadingBit(v / 2, k - 1);
    }
  }

  /** `__CLZ(__RBIT(v))` counts trailing zeros, for every word. */
  lemma ClzOfReversalIsCtz(v: word, r: word, c: nat)
    requires IsReversal(r, v) && IsClz(r, c)
    ensures IsCtz(v, c)
  {
    ReversalOfZero();
    ReversalSymmetric(r, v);
    if r == 0 {
      ReversalUnique(v, 0, r);
    } else {
      if v == 0 {
        ReversalUnique(r, 0, v);
      }
      LeadingBit(r, 31 - c);
      forall i: nat | i < c
        ensures !Bit(v, i)
      {
        HighBitsClear(r, 32 - c, 31 - i);
      }
    }
  }

  // ---------------------------------------------------------------- rotation

  /** `(x >> n) | (x << (32 - n))`. */
  function Turned(x: word, n: nat): word
    requires n <= 32
  {
    Pow2Of32(); OrBelow(Shr(x, n), Shl(x, 32 - n), 32);
    Or(Shr(x, n), Shl(x, 32 - n))
  }

  /** `__ROR` of cmsis_gcc.h. */
  function Ror(op1: word, op2: word): word {
    if op2 % 32 == 0 then op1 else Turned(op1, op2 % 32)
  }

  lemma BitOfTurned(x: word, n: nat, i: nat)
    requires 1 <= n <= 31 && i < 32
    ensures Bit(Turned(x, n), i) == if i + n < 32 then Bit(x, i + n) else Bit(x, i - (32 - n))
  {
    BitOfOr(Shr(x, n), Shl(x, 32 - n), i);
    BitOfShr(x, n, i);
    BitOfShl(x, 32 - n, i);
    if 32 <= i + n {
      Pow2Of32();
      HighBitsClear(x, 32, i + n);
    }
  }

  /** Rotating right by `a` moves bit `i + a`, modulo 32, to bit `i`. */
  lemma RorMovesBits(x: word, a: word, i: nat)
    requires i < 32
    ensures Bit(Ror(x, a), i) == Bit(x, (i + a) % 32)
  {
    RotatedIndex(i, a);
    if a % 32 != 0 {
      BitOfTurned(x, a % 32, i);
    }
  }

  lemma RotatedIndex(i: nat, a: nat)
    requires i < 32
    ensures (i + a) % 32 == if i + a % 32 < 32 then i + a % 32 else i - (32 - a % 32)
  {
  }

  lemma RotatedTwice(i: nat, a: nat, b: nat)
    ensures ((i + b) % 32 + a) % 32 == (i + Wrap(a + b)) % 32
  {
  }

  /** Rotations compose by adding their (wrapping) amounts. */
  lemma RorCompose(x: word, a: word, b: word)
    ensures Ror(Ror(x, a), b) == Ror(x, Wrap(a + b))
  {
    var y := Ror(x, a);
    forall i: nat | i < 32
      ensures Bit(Ror(y, b), i) == Bit(Ror(x, Wrap(a + b)), i)
    {
      RorMovesBits(y, b, i);
      RorMovesBits(x, a, (i + b) % 32);
      RorMovesBits(x, Wrap(a + b), i);
      RotatedTwice(i, a, b);
    }
    WordExtensionality(Ror(y, b), Ror(x, Wrap(a + b)));
  }

  /** Every rotation is undone by the complementary one. */
  lemma RorInverse(x: word, a: word)
    ensures Ror(Ror(x, a), 32 - a % 32) == x
  {
    RorCompose(x, a, 32 - a % 32);
    FullTurn(a);
  }

  lemma FullTurn(a: word)
    ensures Wrap(a + (32 - a % 32)) % 32 == 0
  {
    var b := a + (32 - a % 32);
    assert b % 32 == 0;
  }

  /** `__ROR` of cmsis_iccarm.h, which neither reduces the amount nor treats zero apart.  C
      leaves a shift by 32 or more undefined, and so does this. */
  function RorIar(op1: word, op2: word): Option<word> {
    if op2 >= 32 || Wrap(32 - op2) >= 32 then None else Some(Turned(op1, op2))
  }

  /** The IAR form means the GCC form for amounts 1..31, and nothing for any other. */
  lemma RorIarDefinedIff(x: word, a: word)
    ensures RorIar(x, a) == Some(Ror(x, a)) <==> 1 <= a <= 31
    ensures RorIar(x, a) == None <==> !(1 <= a <= 31)
  {
    if a < 32 {
      WrapOnce(32 - a);
      ModuloUnique(a, 32, 0, a);
    }
  }

  // ---------------------------------------------------------------- saturation

  /** `__SSAT`: the value, clamped to a signed field of `sat` bits for `sat` in 1..32. */
  function Ssat(val: int, sat: word): int {
    if 1 <= sat <= 32 then
      var max: int := Pow2(sat - 1) - 1;
      var min := -1 - max;
      if val > max then max else if val < min then min else val
    else val
  }

  /** `__USAT`: the value, clamped to an unsigned field of `sat` bits for `sat` in 0..31. */
  function Usat(val: int, sat: word): int {
    if sat <= 31 then
      var max := Pow2(sat) - 1;
      if val > max then max else if val < 0 then 0 else val
    else Wrap(val)
  }

  ghost predicate Nearest(r: int, val: int, lo: int, hi: int) {
    lo <= r <= hi && forall w: int :: lo <= w <= hi ==> Distance(val, r) <= Distance(val, w)
  }

  function Distance(a: int, b: int): nat {
    if a < b then b - a else a - b
  }

  /** Saturating gives the nearest value that fits the field; a width that names no signed
      field saturates nothing. */
  lemma SaturationIsNearest(val: int, sat: word)
    ensures 1 <= sat <= 32 ==> Nearest(Ssat(val, sat), val, -(Pow2(sat - 1) as int), Pow2(sat - 1) - 1)
    ensures sat <= 31 ==> Nearest(Usat(val, sat), val, 0, Pow2(sat) - 1)
    ensures sat == 0 || sat > 32 ==> Ssat(val, sat) == val
    ensures sat > 31 ==> (Usat(val, sat) - val) % 0x1_0000_0000 == 0
  {
  }

  /** Saturating twice is saturating once, to the narrower field. */
  lemma SaturationsNest(val: int, m: word, n: word)
    requires 1 <= m <= 32 && 1 <= n <= 32
    ensures Ssat(Ssat(val, m), n) == Ssat(val, if m < n then m else n)
  {
    if m <= n { Pow2Monotone(m - 1, n - 1); } else { Pow2Monotone(n - 1, m - 1); }
  }
}
