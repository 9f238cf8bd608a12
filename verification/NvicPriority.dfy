/** Interrupt priorities: how `NVIC_EncodePriority` packs a preemption level and a
    subpriority, and the two ways the core headers store the result.  `PackedFile` is the
    register file of core_armv8mbl.h and core_cm0plus.h, four 8-bit fields to a word;
    `ByteFile` is that of core_armv81mml.h, one byte to an interrupt.  `P` stands for
    `__NVIC_PRIO_BITS`. */
module NvicPriority {
  import opened Words

  // ---------------------------------------------------------------- the grouping arithmetic

  function PreemptBits(P: nat, group: word): word
    requires P <= 8
  {
    var g := And(group, 7);
    if Wrap(7 - g) > P then P else Wrap(7 - g)
  }

  function SubBits(P: nat, group: word): word
    requires P <= 8
  {
    var g := And(group, 7);
    if Wrap(g + P) < 7 then 0 else Wrap(Wrap(g - 7) + P)
  }

  /** `NVIC_EncodePriority`. */
  function Encode(P: nat, group: word, preempt: word, sub: word): word
    requires 1 <= P <= 8
  {
    Pack(PreemptBits(P, group), SubBits(P, group), preempt, sub)
  }

  function Pack(pre: nat, low: nat, preempt: word, sub: word): word {
    var high := Shl(And(preempt, Wrap(Shl(1, pre) - 1)), low);
    var rest := And(sub, Wrap(Shl(1, low) - 1));
    Pow2Of32(); OrBelow(high, rest, 32);
    Or(high, rest)
  }

  /** `NVIC_DecodePriority`; the two out-parameters are the pair. */
  function Decode(P: nat, group: word, priority: word): (word, word)
    requires 1 <= P <= 8
  {
    var pre, low := PreemptBits(P, group), SubBits(P, group);
    (And(Shr(priority, low), Wrap(Shl(1, pre) - 1)), And(priority, Wrap(Shl(1, low) - 1)))
  }

  /** The wrapping subtraction `group - 7 + P` loses nothing: the two fields always share
      out exactly the implemented bits. */
  lemma FieldsSharePriorityBits(P: nat, group: word)
    requires 1 <= P <= 8
    ensures PreemptBits(P, group) + SubBits(P, group) == P
  {
    var g := And(group, 7);
    WrapOnce(7 - g);
    WrapOnce(g + P);
    WrapOnce(g - 7);
    if 7 <= g + P < 14 {
      WrapTwice(g - 7, P);
    }
  }

  /** Which bits the group gives to preemption: all above the binary point, of those that are
      implemented; and none to the subpriority unless the point lies among them. */
  lemma FieldWidths(P: nat, group: word)
    requires 1 <= P <= 8
    ensures PreemptBits(P, group) == if 7 - group % 8 < P then 7 - group % 8 else P
    ensures SubBits(P, group) == if group % 8 + P < 7 then 0 else group % 8 + P - 7
  {
    var g := And(group, 7);
    assert Pow2(3) == 8;
    MaskIsModulo(group, 3);
    WrapOnce(7 - g);
    WrapOnce(g + P);
    WrapOnce(g - 7);
    if 7 <= g + P {
      WrapTwice(g - 7, P);
    }
  }

  lemma WrapTwice(x: int, y: nat)
    requires -7 <= x < 7 && y <= 8 && x + y >= 0
    ensures Wrap(Wrap(x) + y) == x + y
  {
    WrapOnce(x);
    WrapOnce(x + y);
  }

  lemma FieldMask(x: word, n: nat)
    requires n <= 8
    ensures And(x, Wrap(Shl(1, n) - 1)) == x % Pow2(n)
    ensures 1 <= Pow2(n) <= 256
  {
    Pow2Of32();
    Pow2Monotone(n, 8);
    ShlIsTimes(1, n);
    WrapOnce(Pow2(n) - 1);
    MaskIsModulo(x, n);
  }

  lemma {:induction false} Pow2Sum(m: nat, n: nat)
    ensures Pow2(m) * Pow2(n) == Pow2(m + n)
    decreases m
  {
    if m != 0 {
      Pow2Sum(m - 1, n);
      assert Pow2(m) * Pow2(n) == 2 * (Pow2(m - 1) * Pow2(n));
    }
  }

  /** A two-digit numeral (a, b) whose low digit counts up to `n` stays below m * n. */
  lemma TwoDigits(a: nat, b: nat, m: nat, n: nat)
    requires a < m && b < n
    ensures a * n + b < m * n
    ensures (a * n + b) / n == a && (a * n + b) % n == b
  {
    RowFits(a, m, n);
    ModuloUnique(a * n + b, n, a, b);
  }

  lemma RowFits(a: nat, m: nat, n: nat)
    requires a < m
    ensures a * n + n <= m * n
  {
    assert m * n == (m - a) * n + a * n;
    assert (m - a) * n == n + (m - a - 1) * n;
  }

  lemma JoinFields(a: word, b: word, pre: nat, low: nat)
    requires pre + low <= 8 && a < Pow2(pre) && b < Pow2(low)
    ensures Pow2(pre) * Pow2(low) == Pow2(pre + low)
    ensures Or(Shl(a, low), b) == a * Pow2(low) + b < Pow2(pre + low)
    ensures Shl(a, low) == a * Pow2(low) && (a * Pow2(low)) / Pow2(low) == a
  {
    Pow2Sum(pre, low);
    TwoDigits(a, b, Pow2(pre), Pow2(low));
    TwoDigits(a, 0, Pow2(pre), Pow2(low));
    Pow2Of32();
    Pow2Monotone(pre + low, 8);
    ShlIsTimes(a, low);
    OrIsSum(a, b, low);
  }

  lemma PackOfReduced(pre: nat, low: nat, preempt: word, sub: word, a: word, b: word)
    requires pre + low <= 8
    requires a == And(preempt, Wrap(Shl(1, pre) - 1)) < Pow2(pre)
    requires b == And(sub, Wrap(Shl(1, low) - 1)) < Pow2(low)
    ensures Pack(pre, low, preempt, sub) == a * Pow2(low) + b < Pow2(pre + low)
    ensures Pow2(pre) * Pow2(low) == Pow2(pre + low)
  {
    PackIsOr(pre, low, preempt, sub, a, b);
    JoinFields(a, b, pre, low);
  }

  lemma PackIsOr(pre: nat, low: nat, preempt: word, sub: word, a: word, b: word)
    requires a == And(preempt, Wrap(Shl(1, pre) - 1)) && b == And(sub, Wrap(Shl(1, low) - 1))
    ensures Pack(pre, low, preempt, sub) == Or(Shl(a, low), b)
  {
  }

  /** The meaning of the shifts, masks and `|` of `NVIC_EncodePriority`. */
  lemma EncodeValue(P: nat, group: word, preempt: word, sub: word)
    requires 1 <= P <= 8
    ensures var M, N := Pow2(PreemptBits(P, group)), Pow2(SubBits(P, group));
            && Encode(P, group, preempt, sub) == (preempt % M) * N + sub % N
            && M * N == Pow2(P)
            && Encode(P, group, preempt, sub) < Pow2(P)
  {
    var M, N := Pow2(PreemptBits(P, group)), Pow2(SubBits(P, group));
    ModuloBounds(preempt, M);
    ModuloBounds(sub, N);
    FieldsSharePriorityBits(P, group);
    FieldMask(preempt, PreemptBits(P, group));
    FieldMask(sub, SubBits(P, group));
    PackOfReduced(PreemptBits(P, group), SubBits(P, group), preempt, sub, preempt % M, sub % N);
  }

  /** The meaning of `NVIC_DecodePriority`. */
  lemma DecodeValue(P: nat, group: word, priority: word)
    requires 1 <= P <= 8
    ensures var M, N := Pow2(PreemptBits(P, group)), Pow2(SubBits(P, group));
            Decode(P, group, priority) == ((priority / N) % M, priority % N)
  {
    FieldsSharePriorityBits(P, group);
    var pre, low := PreemptBits(P, group), SubBits(P, group);
    ShrIsDivide(priority, low);
    FieldMask(Shr(priority, low), pre);
    FieldMask(priority, low);
  }

  /** Decoding an encoded priority gives both fields back, each reduced to its width. */
  lemma DecodeEncode(P: nat, group: word, preempt: word, sub: word)
    requires 1 <= P <= 8
    ensures Decode(P, group, Encode(P, group, preempt, sub))
         == (preempt % Pow2(PreemptBits(P, group)), sub % Pow2(SubBits(P, group)))
  {
    EncodeValue(P, group, preempt, sub);
    DecodeValue(P, group, Encode(P, group, preempt, sub));
    var M, N := Pow2(PreemptBits(P, group)), Pow2(SubBits(P, group));
    TwoDigits(preempt % M, sub % N, M, N);
    ModuloUnique(preempt % M, M, 0, preempt % M);
  }

  lemma SplitDigits(x: nat, m: nat, n: nat)
    requires m >= 1 && n >= 1
    ensures m * n >= 1 && x % (m * n) == ((x / n) % m) * n + x % n
  {
    var a, b := (x / n) % m, x % n;
    var q := x / n / m;
    assert x / n == m * q + a;
    assert x == n * (x / n) + b;
    assert n * (m * q + a) == q * (m * n) + a * n;
    assert m * n >= 1 by { MultipleGrows(m, n); }
    TwoDigits(a, b, m, n);
    ModuloUnique(x, m * n, q, a * n + b);
  }

  /** Encoding a decoded priority gives back its implemented bits. */
  lemma EncodeDecode(P: nat, group: word, priority: word)
    requires 1 <= P <= 8
    ensures var (preempt, sub) := Decode(P, group, priority);
            Encode(P, group, preempt, sub) == priority % Pow2(P)
  {
    var (preempt, sub) := Decode(P, group, priority);
    DecodeValue(P, group, priority);
    EncodeValue(P, group, preempt, sub);
    var M, N := Pow2(PreemptBits(P, group)), Pow2(SubBits(P, group));
    ModuloUnique(preempt, M, 0, preempt);
    ModuloUnique(sub, N, 0, sub);
    SplitDigits(priority, M, N);
  }

  /** The lexicographic order on (preemption level, subpriority): what the core compares. */
  predicate MoreUrgent(a: (word, word), b: (word, word)) {
    a.0 < b.0 || (a.0 == b.0 && a.1 < b.1)
  }

  predicate InRange(P: nat, group: word, a: (word, word))
    requires 1 <= P <= 8
  {
    a.0 < Pow2(PreemptBits(P, group)) && a.1 < Pow2(SubBits(P, group))
  }

  lemma EncodeInRange(P: nat, group: word, a: (word, word))
    requires 1 <= P <= 8 && InRange(P, group, a)
    ensures Encode(P, group, a.0, a.1) == a.0 * Pow2(SubBits(P, group)) + a.1
  {
    EncodeValue(P, group, a.0, a.1);
    ModuloUnique(a.0, Pow2(PreemptBits(P, group)), 0, a.0);
    ModuloUnique(a.1, Pow2(SubBits(P, group)), 0, a.1);
  }

  lemma DigitOrder(a: nat, low: nat, b: nat, n: nat)
    requires a < b && low < n
    ensures a * n + low < b * n
  {
    assert (b - a) * n == b * n - a * n;
    MultipleGrows(b - a, n);
  }

  /** On fields that fit, encoding is strictly monotone, hence one-to-one, and reaches
      exactly the numbers below 2^P. */
  lemma EncodeIsOrderIsomorphism(P: nat, group: word, a: (word, word), b: (word, word))
    requires 1 <= P <= 8 && InRange(P, group, a) && InRange(P, group, b)
    ensures MoreUrgent(a, b) <==> Encode(P, group, a.0, a.1) < Encode(P, group, b.0, b.1)
    ensures a == b <==> Encode(P, group, a.0, a.1) == Encode(P, group, b.0, b.1)
    ensures Encode(P, group, a.0, a.1) < Pow2(P)
  {
    EncodeValue(P, group, a.0, a.1);
    EncodeInRange(P, group, a);
    EncodeInRange(P, group, b);
    var N := Pow2(SubBits(P, group));
    if a.0 < b.0 {
      DigitOrder(a.0, a.1, b.0, N);
    } else if b.0 < a.0 {
      DigitOrder(b.0, b.1, a.0, N);
    }
  }

  lemma EncodeIsOnto(P: nat, group: word, priority: word)
    requires 1 <= P <= 8 && priority < Pow2(P)
    ensures InRange(P, group, Decode(P, group, priority))
    ensures Encode(P, group, Decode(P, group, priority).0, Decode(P, group, priority).1) == priority
  {
    DecodeValue(P, group, priority);
    EncodeDecode(P, group, priority);
    ModuloUnique(priority, Pow2(P), 0, priority);
  }

  // ---------------------------------------------------------------- the register files

  function BitShift(irq: int): nat {
    And(Wrap(irq), 3) * 8
  }

  function ShpIdx(irq: int): nat {
    Shr(Wrap(And(Wrap(irq), 0xF) - 8), 2)
  }

  function IpIdx(irq: int): nat {
    Shr(Wrap(irq), 2)
  }

  function ByteShpIdx(irq: int): nat {
    Wrap(And(Wrap(irq), 0xF) - 4)
  }

  /** `SetPriority` may be called for these: the configurable system handlers and the
      device interrupts that the file has fields for. */
  predicate ValidIrq(irq: int, words: nat) {
    -8 <= irq < 4 * words
  }

  /** The byte file has fields for four more handlers. */
  predicate ValidByteIrq(irq: int, bytes: nat) {
    -12 <= irq < bytes
  }

  lemma IndexMacros(irq: int)
    requires -16 <= irq < 0x8000_0000
    ensures BitShift(irq) == 8 * (irq % 4)
    ensures 0 <= irq ==> Wrap(irq) == irq && IpIdx(irq) == irq / 4
    ensures irq < 0 ==> ShpIdx(irq) == Wrap(irq + 8) / 4
    ensures irq < 0 ==> ByteShpIdx(irq) == Wrap(irq + 12)
    ensures -8 <= irq < 0 ==> Wrap(irq + 8) == irq + 8
    ensures -12 <= irq < 0 ==> Wrap(irq + 12) == irq + 12
  {
    var w := Wrap(irq);
    WrapOnce(irq);
    WrapOnce(irq + 8);
    WrapOnce(irq + 12);
    MaskOfIrq(w, irq);
    assert Pow2(2) == 4;
    ShrIsDivide(w, 2);
    ShrIsDivide(Wrap(irq + 8), 2);
  }

  lemma MaskOfIrq(w: word, irq: int)
    requires -16 <= irq < 0x8000_0000 && w == if irq >= 0 then irq else irq + 0x1_0000_0000
    ensures And(w, 3) == irq % 4
    ensures irq < 0 ==> And(w, 0xF) == irq + 16
  {
    LowBitsMask(w);
  }

  lemma LowBitsMask(w: word)
    ensures And(w, 3) == w % 4
    ensures And(w, 0xF) == w % 16
  {
    assert Pow2(2) == 4 && Pow2(4) == 16;
    MaskIsModulo(w, 2);
    MaskIsModulo(w, 4);
  }

  /** The index arithmetic stays inside `SHPR` for exactly the handlers whose priority can be
      set: with two words for -8..-1, with twelve bytes for -12..-1. */
  lemma HandlerIndexInRangeIff(irq: int)
    requires -16 <= irq < 0
    ensures ShpIdx(irq) < 2 <==> -8 <= irq
    ensures ByteShpIdx(irq) < 12 <==> -12 <= irq
  {
    IndexMacros(irq);
    WrapOnce(irq + 8);
    WrapOnce(irq + 12);
  }

  /** The byte a priority is stored as. */
  function Level(P: nat, priority: word): byte
    requires 1 <= P <= 8
  {
    And(Shl(priority, 8 - P), 0xFF)
  }

  lemma LevelIsShift(P: nat, priority: word, x: word)
    requires 1 <= P <= 8 && x == priority % Pow2(P) && Shl(x, 8 - P) < 256
    ensures Level(P, priority) == Shl(x, 8 - P)
  {
    var n := 8 - P;
    forall i: nat | i < 8
      ensures Bit(Level(P, priority), i) == Bit(Shl(x, n), i)
    {
      BitOfByte(Shl(priority, n), i);
      BitOfShl(priority, n, i);
      BitOfShl(x, n, i);
      if n <= i {
        BitBelow(priority, P, i - n);
      }
    }
    Pow2Of32();
    BitsDetermine(Level(P, priority), Shl(x, n), 8);
  }

  lemma LevelOfReduced(P: nat, priority: word, x: word)
    requires 1 <= P <= 8 && x == priority % Pow2(P)
    ensures Level(P, priority) == x * Pow2(8 - P)
    ensures Level(P, priority) / Pow2(8 - P) == x
  {
    JoinFields(x, 0, P, 8 - P);
    assert Pow2(8) == 256;
    LevelIsShift(P, priority, x);
  }

  /** The byte stored is the priority's low P bits, moved to the top, and reading moves them
      back down. */
  lemma LevelValue(P: nat, priority: word)
    requires 1 <= P <= 8
    ensures Level(P, priority) == (priority % Pow2(P)) * Pow2(8 - P)
    ensures Shr(Level(P, priority), 8 - P) == priority % Pow2(P)
  {
    ModuloBounds(priority, Pow2(P));
    var x: word := priority % Pow2(P);
    LevelOfReduced(P, priority, x);
    ShrIsDivide(Level(P, priority), 8 - P);
  }

  /** What the core compares to decide preemption, of the byte stored for an interrupt: the
      bits above the binary point. */
  function GroupPriority(level: byte, group: word): int {
    level / Pow2(group % 8 + 1)
  }

  lemma ProductDivided(x: nat, a: nat, b: nat)
    requires a >= 1 && b >= 1
    ensures (x * a) / (a * b) == x / b
  {
    var q, r := x / b, x % b;
    assert x == q * b + r;
    assert x * a == q * (a * b) + r * a by {
      assert (q * b) * a == q * (a * b);
      assert (q * b + r) * a == (q * b) * a + r * a;
    }
    assert 0 <= r * a;
    RowFits(r, b, a);
    assert r * a < b * a && b * a == a * b;
    ModuloUnique(x * a, a * b, q, r * a);
  }

  /** The preemption field of a priority is what the core compares, scaled by the bits above
      the binary point that are not implemented. */
  lemma BinaryPoint(P: nat, group: word, x: word)
    requires 1 <= P <= 8 && x < Pow2(P)
    ensures PreemptBits(P, group) <= 7 - group % 8
    ensures GroupPriority(Level(P, x), group) == Decode(P, group, x).0 * Pow2(7 - group % 8 - PreemptBits(P, group))
  {
    FieldWidths(P, group);
    LevelOfSmall(P, x);
    DecodedPreempt(P, group, x, PreemptBits(P, group), SubBits(P, group));
    if 7 - group % 8 < P {
      PointInside(P, group % 8, x, Level(P, x), Decode(P, group, x).0, PreemptBits(P, group), SubBits(P, group));
    } else {
      PointOutside(P, group % 8, x, Level(P, x), Decode(P, group, x).0, PreemptBits(P, group), SubBits(P, group));
    }
  }

  lemma LevelOfSmall(P: nat, x: word)
    requires 1 <= P <= 8 && x < Pow2(P)
    ensures Level(P, x) == x * Pow2(8 - P)
  {
    ModuloUnique(x, Pow2(P), 0, x);
    LevelOfReduced(P, x, x);
  }

  lemma DecodedPreempt(P: nat, group: word, x: word, pre: nat, low: nat)
    requires 1 <= P <= 8 && pre == PreemptBits(P, group) && low == SubBits(P, group)
    ensures Decode(P, group, x).0 == (x / Pow2(low)) % Pow2(pre)
  {
    DecodeValue(P, group, x);
  }

  lemma PointInside(P: nat, g: nat, x: nat, level: nat, d: nat, pre: nat, low: nat)
    requires 1 <= P <= 8 && g <= 7 && pre == 7 - g < P && low == g + P - 7
    requires x < Pow2(P) && level == x * Pow2(8 - P) && d == (x / Pow2(low)) % Pow2(pre)
    ensures level / Pow2(g + 1) == d * Pow2(7 - g - pre)
  {
    Pow2Sum(pre, low);
    Pow2Sum(8 - P, low);
    PointAmong(x, level, Pow2(pre), Pow2(low), Pow2(8 - P), Pow2(g + 1));
    assert Pow2(7 - g - pre) == 1;
  }

  lemma PointOutside(P: nat, g: nat, x: nat, level: nat, d: nat, pre: nat, low: nat)
    requires 1 <= P <= 8 && pre == P <= 7 - g && low == 0
    requires x < Pow2(P) && level == x * Pow2(8 - P) && d == (x / Pow2(low)) % Pow2(pre)
    ensures level / Pow2(g + 1) == d * Pow2(7 - g - pre)
  {
    assert Pow2(low) == 1;
    Pow2Sum(g + 1, 7 - g - pre);
    PointBelow(x, level, Pow2(pre), Pow2(g + 1), Pow2(7 - g - pre), Pow2(8 - P));
  }

  /** The binary point lies among the implemented bits, `n` of whose values are below it. */
  lemma PointAmong(x: nat, level: nat, m: nat, n: nat, s: nat, point: nat)
    requires m >= 1 && n >= 1 && s >= 1 && x < m * n && level == x * s && point == s * n
    ensures level / point == (x / n) % m && point >= 1
  {
    ProductDivided(x, s, n);
    QuotientFits(x, m, n);
    MultipleGrows(s, n);
  }

  /** It lies below them, with `b` values of unimplemented bits between. */
  lemma PointBelow(x: nat, level: nat, m: nat, a: nat, b: nat, s: nat)
    requires m >= 1 && a >= 1 && b >= 1 && x < m && level == x * s && s == a * b
    ensures level / a == ((x / 1) % m) * b
  {
    WholeQuotient(x, a, b);
    ModuloUnique(x, m, 0, x);
  }

  lemma QuotientFits(x: nat, m: nat, n: nat)
    requires m >= 1 && n >= 1 && x < m * n
    ensures (x / n) % m == x / n
  {
    var q := x / n;
    assert x == n * q + x % n;
    assert (q - m + 1) * n == n * q - m * n + n;
    MultipleGrows(q - m + 1, n);
    ModuloUnique(q, m, 0, q);
  }

  lemma WholeQuotient(x: nat, a: nat, b: nat)
    requires a >= 1 && b >= 1
    ensures (x * (a * b)) / a == x * b
  {
    assert x * (a * b) == (x * b) * a;
    ModuloUnique(x * (a * b), a, x * b, 0);
  }

  /** So encoding keeps the order in which interrupts preempt each other: one encoded priority
      preempts another exactly if its preemption level is the smaller, whatever the
      subpriorities. */
  lemma PreemptsIff(P: nat, group: word, a: (word, word), b: (word, word))
    requires 1 <= P <= 8 && InRange(P, group, a) && InRange(P, group, b)
    ensures GroupPriority(Level(P, Encode(P, group, a.0, a.1)), group) < GroupPriority(Level(P, Encode(P, group, b.0, b.1)), group)
            <==> a.0 < b.0
  {
    GroupOfEncoded(P, group, a);
    GroupOfEncoded(P, group, b);
    ScaledOrder(a.0, b.0, Pow2(7 - group % 8 - PreemptBits(P, group)));
  }

  lemma GroupOfEncoded(P: nat, group: word, a: (word, word))
    requires 1 <= P <= 8 && InRange(P, group, a)
    ensures PreemptBits(P, group) <= 7 - group % 8
    ensures GroupPriority(Level(P, Encode(P, group, a.0, a.1)), group) == a.0 * Pow2(7 - group % 8 - PreemptBits(P, group))
  {
    EncodeValue(P, group, a.0, a.1);
    BinaryPoint(P, group, Encode(P, group, a.0, a.1));
    DecodeEncode(P, group, a.0, a.1);
    ModuloUnique(a.0, Pow2(PreemptBits(P, group)), 0, a.0);
  }

  lemma ScaledOrder(a: nat, b: nat, n: nat)
    requires n >= 1
    ensures a * n < b * n <==> a < b
  {
    if a < b {
      DigitOrder(a, 0, b, n);
    } else if b < a {
      DigitOrder(b, 0, a, n);
    }
  }

  lemma BitOfByte(x: nat, i: nat)
    requires i < 8
    ensures Bit(And(x, 0xFF), i) == Bit(x, i)
  {
    Pow2Of32();
    MaskIsModulo(x, 8);
    BitBelow(x, 8, i);
  }

  /** The read-modify-write of one packed word. */
  function PackedWord(P: nat, w: word, irq: int, priority: word): word
    requires 1 <= P <= 8
  {
    var kept := And(w, Not(Shl(0xFF, BitShift(irq))));
    var field := Shl(Level(P, priority), BitShift(irq));
    Pow2Of32(); OrBelow(kept, field, 32);
    Or(kept, field)
  }

  function Field(w: word, shift: nat): byte {
    And(Shr(w, shift), 0xFF)
  }

  lemma FieldOfZero(shift: nat)
    ensures Field(0, shift) == 0
  {
    ShrIsDivide(0, shift);
    ZeroDivided(Pow2(shift));
  }

  lemma ZeroDivided(p: nat)
    requires p >= 1
    ensures 0 / p == 0
  {
  }

  lemma BitOfField(w: word, shift: nat, i: nat)
    requires i < 8
    ensures Bit(Field(w, shift), i) == Bit(w, i + shift)
  {
    BitOfByte(Shr(w, shift), i);
    BitOfShr(w, shift, i);
  }

  lemma BitOfPackedWord(P: nat, w: word, irq: int, priority: word, t: nat)
    requires 1 <= P <= 8 && t < 32
    ensures Bit(PackedWord(P, w, irq, priority), t)
         == if BitShift(irq) <= t < BitShift(irq) + 8 then Bit(Level(P, priority), t - BitShift(irq)) else Bit(w, t)
  {
    var s := BitShift(irq);
    var hole, field := Shl(0xFF, s), Shl(Level(P, priority), s);
    BitOfOr(And(w, Not(hole)), field, t);
    BitOfAnd(w, Not(hole), t);
    BitOfNot(hole, t);
    BitOfShl(0xFF, s, t);
    BitOfShl(Level(P, priority), s, t);
    if s <= t {
      OnesByte(t - s);
      if s + 8 <= t {
        Pow2Of32();
        HighBitsClear(Level(P, priority), 8, t - s);
      }
    }
  }

  lemma OnesByte(i: nat)
    ensures Bit(0xFF, i) == (i < 8)
  {
    Pow2Of32();
    if i < 8 {
      BitOfComplement(0, 8, i);
      BitOfZero(i);
    } else {
      HighBitsClear(0xFF, 8, i);
    }
  }

  /** Writing one field leaves the other three alone. */
  lemma PackedWordFields(P: nat, w: word, irq: int, priority: word, lane: nat)
    requires 1 <= P <= 8 && -16 <= irq < 0x8000_0000 && lane < 4
    ensures Field(PackedWord(P, w, irq, priority), 8 * lane)
         == if lane == irq % 4 then Level(P, priority) else Field(w, 8 * lane)
  {
    IndexMacros(irq);
    var w' := PackedWord(P, w, irq, priority);
    var expected: byte := if lane == irq % 4 then Level(P, priority) else Field(w, 8 * lane);
    forall i: nat | i < 8
      ensures Bit(Field(w', 8 * lane), i) == Bit(expected, i)
    {
      BitOfField(w', 8 * lane, i);
      BitOfField(w, 8 * lane, i);
      BitOfPackedWord(P, w, irq, priority, i + 8 * lane);
    }
    Pow2Of32();
    BitsDetermine(Field(w', 8 * lane), expected, 8);
  }

  datatype PackedFile = PackedFile(ipr: seq<word>, shpr: seq<word>) {
    predicate Ok() {
      |ipr| <= 124 && |shpr| == 2
    }

    /** The byte held for an interrupt. */
    function At(irq: int): byte
      requires Ok() && ValidIrq(irq, |ipr|)
    {
      IndexMacros(irq);
      if irq >= 0 then Field(ipr[IpIdx(irq)], BitShift(irq)) else Field(shpr[ShpIdx(irq)], BitShift(irq))
    }

    /** `__NVIC_SetPriority` of core_armv8mbl.h. */
    function Set(P: nat, irq: int, priority: word): (f: PackedFile)
      requires Ok() && ValidIrq(irq, |ipr|) && 1 <= P <= 8
      ensures f.Ok() && |f.ipr| == |ipr|
    {
      IndexMacros(irq);
      if irq >= 0 then
        this.(ipr := ipr[IpIdx(irq) := PackedWord(P, ipr[IpIdx(irq)], irq, priority)])
      else
        this.(shpr := shpr[ShpIdx(irq) := PackedWord(P, shpr[ShpIdx(irq)], irq, priority)])
    }
  }

  datatype ByteFile = ByteFile(ipr: seq<byte>, shpr: seq<byte>) {
    predicate Ok() {
      |ipr| <= 496 && |shpr| == 12
    }

    function At(irq: int): byte
      requires Ok() && ValidByteIrq(irq, |ipr|)
    {
      IndexMacros(irq);
      if irq >= 0 then ipr[Wrap(irq)] else shpr[ByteShpIdx(irq)]
    }

    /** `__NVIC_SetPriority` of core_armv81mml.h. */
    function Set(P: nat, irq: int, priority: word): (f: ByteFile)
      requires Ok() && ValidByteIrq(irq, |ipr|) && 1 <= P <= 8
      ensures f.Ok() && |f.ipr| == |ipr|
    {
      IndexMacros(irq);
      if irq >= 0 then
        this.(ipr := ipr[Wrap(irq) := Level(P, priority)])
      else
        this.(shpr := shpr[ByteShpIdx(irq) := Level(P, priority)])
    }
  }

  /** Where the fields are: byte `irq % 4` of word `irq / 4`, the handlers from -8 on before
      the interrupts in a file of their own; or byte `irq`, and the handlers from -12 on. */
  lemma FieldPlaces(f: PackedFile, g: ByteFile, irq: int)
    requires f.Ok() && g.Ok()
    ensures 0 <= irq < 4 * |f.ipr| ==> f.At(irq) == (f.ipr[irq / 4] / Pow2(8 * (irq % 4))) % 256
    ensures -8 <= irq < 0 ==> f.At(irq) == (f.shpr[(irq + 8) / 4] / Pow2(8 * (irq % 4))) % 256
    ensures 0 <= irq < |g.ipr| ==> g.At(irq) == g.ipr[irq]
    ensures -12 <= irq < 0 ==> g.At(irq) == g.shpr[irq + 12]
  {
    if -12 <= irq < 4 * |f.ipr| || -12 <= irq < |g.ipr| {
      IndexMacros(irq);
      if 0 <= irq < 4 * |f.ipr| {
        FieldIsByte(f.ipr[irq / 4], BitShift(irq));
      }
      if -8 <= irq < 0 {
        FieldIsByte(f.shpr[(irq + 8) / 4], BitShift(irq));
      }
    }
  }

  lemma FieldIsByte(w: word, shift: nat)
    ensures Field(w, shift) == (w / Pow2(shift)) % 256
  {
    Pow2Of32();
    ShrIsDivide(w, shift);
    MaskIsModulo(Shr(w, shift), 8);
  }

  /** A packed write changes the field of its own interrupt and no other. */
  lemma PackedSetAt(P: nat, f: PackedFile, irq: int, priority: word, j: int)
    requires f.Ok() && ValidIrq(irq, |f.ipr|) && ValidIrq(j, |f.ipr|) && 1 <= P <= 8
    ensures f.Set(P, irq, priority).At(j) == if j == irq then Level(P, priority) else f.At(j)
  {
    IndexMacros(irq);
    IndexMacros(j);
    var f' := f.Set(P, irq, priority);
    if irq >= 0 {
      var k := irq / 4;
      PackedWordFields(P, f.ipr[k], irq, priority, j % 4);
      assert f'.ipr[k] == PackedWord(P, f.ipr[k], irq, priority);
      assert 0 <= j && j / 4 != k ==> f'.ipr[j / 4] == f.ipr[j / 4];
    } else {
      var k := (irq + 8) / 4;
      PackedWordFields(P, f.shpr[k], irq, priority, j % 4);
      assert f'.shpr[k] == PackedWord(P, f.shpr[k], irq, priority);
      assert j < 0 && (j + 8) / 4 != k ==> f'.shpr[(j + 8) / 4] == f.shpr[(j + 8) / 4];
    }
  }

  lemma ByteSetAt(P: nat, g: ByteFile, irq: int, priority: word, j: int)
    requires g.Ok() && ValidByteIrq(irq, |g.ipr|) && ValidByteIrq(j, |g.ipr|) && 1 <= P <= 8
    ensures g.Set(P, irq, priority).At(j) == if j == irq then Level(P, priority) else g.At(j)
  {
    IndexMacros(irq);
    IndexMacros(j);
  }

  // ---------------------------------------------------------------- whole runs

  datatype Call = Call(irq: int, priority: word)

  predicate ValidCalls(calls: seq<Call>, words: nat) {
    forall c :: c in calls ==> ValidIrq(c.irq, words)
  }

  predicate ValidByteCalls(calls: seq<Call>, bytes: nat) {
    forall c :: c in calls ==> ValidByteIrq(c.irq, bytes)
  }

  function RunPacked(P: nat, f: PackedFile, calls: seq<Call>): (f': PackedFile)
    requires f.Ok() && ValidCalls(calls, |f.ipr|) && 1 <= P <= 8
    ensures f'.Ok() && |f'.ipr| == |f.ipr|
    decreases |calls|
  {
    if calls == [] then f
    else RunPacked(P, f.Set(P, calls[0].irq, calls[0].priority), calls[1..])
  }

  function RunBytes(P: nat, g: ByteFile, calls: seq<Call>): (g': ByteFile)
    requires g.Ok() && ValidByteCalls(calls, |g.ipr|) && 1 <= P <= 8
    ensures g'.Ok() && |g'.ipr| == |g.ipr|
    decreases |calls|
  {
    if calls == [] then g
    else RunBytes(P, g.Set(P, calls[0].irq, calls[0].priority), calls[1..])
  }

  /** The specification: an interrupt has the last priority it was given. */
  function LastLevel(P: nat, calls: seq<Call>, irq: int, initial: byte): byte
    requires 1 <= P <= 8
  {
    if calls == [] then initial
    else
      var c := calls[|calls| - 1];
      if c.irq == irq then Level(P, c.priority) else LastLevel(P, calls[..|calls| - 1], irq, initial)
  }

  lemma {:induction false} LastLevelFront(P: nat, calls: seq<Call>, irq: int, initial: byte)
    requires 1 <= P <= 8 && calls != []
    ensures LastLevel(P, calls, irq, initial)
         == LastLevel(P, calls[1..], irq, if calls[0].irq == irq then Level(P, calls[0].priority) else initial)
  {
    if |calls| > 1 {
      LastLevelFront(P, calls[..|calls| - 1], irq, initial);
      assert calls[1..][..|calls| - 2] == calls[..|calls| - 1][1..];
    }
  }

  /** After any calls at all, the packed file holds, for every interrupt, the last priority
      written to it: packing four fields to a word is not observable. */
  lemma {:induction false} PackedHoldsLastPriority(P: nat, f: PackedFile, calls: seq<Call>, irq: int)
    requires 1 <= P <= 8 && f.Ok() && ValidCalls(calls, |f.ipr|) && ValidIrq(irq, |f.ipr|)
    ensures RunPacked(P, f, calls).At(irq) == LastLevel(P, calls, irq, f.At(irq))
    decreases |calls|
  {
    if calls != [] {
      var c := calls[0];
      PackedSetAt(P, f, c.irq, c.priority, irq);
      PackedHoldsLastPriority(P, f.Set(P, c.irq, c.priority), calls[1..], irq);
      LastLevelFront(P, calls, irq, f.At(irq));
    }
  }

  /** So does the byte file. */
  lemma {:induction false} BytesHoldLastPriority(P: nat, g: ByteFile, calls: seq<Call>, irq: int)
    requires 1 <= P <= 8 && g.Ok() && ValidByteCalls(calls, |g.ipr|) && ValidByteIrq(irq, |g.ipr|)
    ensures RunBytes(P, g, calls).At(irq) == LastLevel(P, calls, irq, g.At(irq))
    decreases |calls|
  {
    if calls != [] {
      var c := calls[0];
      ByteSetAt(P, g, c.irq, c.priority, irq);
      BytesHoldLastPriority(P, g.Set(P, c.irq, c.priority), calls[1..], irq);
      LastLevelFront(P, calls, irq, g.At(irq));
    }
  }

  /** The word-packed file refines the byte file over every call sequence. */
  lemma PackedRefinesBytes(P: nat, f: PackedFile, g: ByteFile, calls: seq<Call>)
    requires 1 <= P <= 8 && f.Ok() && g.Ok() && 4 * |f.ipr| == |g.ipr|
    requires ValidCalls(calls, |f.ipr|)
    requires forall irq :: ValidIrq(irq, |f.ipr|) ==> f.At(irq) == g.At(irq)
    ensures forall irq :: ValidIrq(irq, |f.ipr|) ==> RunPacked(P, f, calls).At(irq) == RunBytes(P, g, calls).At(irq)
  {
    forall irq | ValidIrq(irq, |f.ipr|)
      ensures RunPacked(P, f, calls).At(irq) == RunBytes(P, g, calls).At(irq)
    {
      PackedHoldsLastPriority(P, f, calls, irq);
      BytesHoldLastPriority(P, g, calls, irq);
    }
  }

  /** `__NVIC_GetPriority`, on the stored byte. */
  function Got(P: nat, stored: byte): word
    requires 1 <= P <= 8
  {
    Shr(stored, 8 - P)
  }

  lemma {:induction false} LastLevelKept(P: nat, before: seq<Call>, c: Call, after: seq<Call>, initial: byte)
    requires 1 <= P <= 8
    requires forall a :: a in after ==> a.irq != c.irq
    ensures LastLevel(P, before + [c] + after, c.irq, initial) == Level(P, c.priority)
    decreases |after|
  {
    var calls := before + [c] + after;
    if after == [] {
      assert calls[|calls| - 1] == c;
    } else {
      assert calls[..|calls| - 1] == before + [c] + after[..|after| - 1];
      assert calls[|calls| - 1] == after[|after| - 1];
      LastLevelKept(P, before, c, after[..|after| - 1], initial);
    }
  }

  /** Reading back and decoding what was encoded gives the fields. */
  lemma LevelDecodes(P: nat, group: word, preempt: word, sub: word)
    requires 1 <= P <= 8
    ensures Decode(P, group, Got(P, Level(P, Encode(P, group, preempt, sub)))) == Fields(P, group, preempt, sub)
  {
    var x := Encode(P, group, preempt, sub);
    LevelValue(P, x);
    EncodeValue(P, group, preempt, sub);
    ModuloUnique(x, Pow2(P), 0, x);
    DecodeEncode(P, group, preempt, sub);
  }

  /** A preemption level and a subpriority, reduced to the bits there are. */
  function Fields(P: nat, group: word, preempt: word, sub: word): (word, word)
    requires 1 <= P <= 8
  {
    ModuloBounds(preempt, Pow2(PreemptBits(P, group)));
    ModuloBounds(sub, Pow2(SubBits(P, group)));
    (preempt % Pow2(PreemptBits(P, group)), sub % Pow2(SubBits(P, group)))
  }

  /** Encode, set, let any other interrupts be set, get, decode: both fields come back,
      whatever was called before. */
  lemma PackedRoundTrip(P: nat, group: word, preempt: word, sub: word, irq: int, f: PackedFile, before: seq<Call>, after: seq<Call>)
    requires 1 <= P <= 8 && f.Ok() && ValidIrq(irq, |f.ipr|)
    requires ValidCalls(before, |f.ipr|) && ValidCalls(after, |f.ipr|) && forall c :: c in after ==> c.irq != irq
    ensures var calls := before + [Call(irq, Encode(P, group, preempt, sub))] + after;
            && ValidCalls(calls, |f.ipr|)
            && Decode(P, group, Got(P, RunPacked(P, f, calls).At(irq))) == Fields(P, group, preempt, sub)
  {
    var x := Encode(P, group, preempt, sub);
    PackedHoldsLastPriority(P, f, before + [Call(irq, x)] + after, irq);
    LastLevelKept(P, before, Call(irq, x), after, f.At(irq));
    LevelDecodes(P, group, preempt, sub);
  }

  /** The same from the byte file. */
  lemma ByteRoundTrip(P: nat, group: word, preempt: word, sub: word, irq: int, g: ByteFile, before: seq<Call>, after: seq<Call>)
    requires 1 <= P <= 8 && g.Ok() && ValidByteIrq(irq, |g.ipr|)
    requires ValidByteCalls(before, |g.ipr|) && ValidByteCalls(after, |g.ipr|) && forall c :: c in after ==> c.irq != irq
    ensures var calls := before + [Call(irq, Encode(P, group, preempt, sub))] + after;
            && ValidByteCalls(calls, |g.ipr|)
            && Decode(P, group, Got(P, RunBytes(P, g, calls).At(irq))) == Fields(P, group, preempt, sub)
  {
    var x := Encode(P, group, preempt, sub);
    BytesHoldLastPriority(P, g, before + [Call(irq, x)] + after, irq);
    LastLevelKept(P, before, Call(irq, x), after, g.At(irq));
    LevelDecodes(P, group, preempt, sub);
  }

  // ---------------------------------------------------------------- the registers themselves

  /** `NVIC->IPR` and `SCB->SHPR` as words. */
  class PackedNvic {
    const P: nat
    const ipr: array<word>
    const shpr: array<word>

    ghost predicate Valid() {
      1 <= P <= 8 && ipr.Length <= 124 && shpr.Length == 2 && ipr != shpr
    }

    ghost function File(): PackedFile
      reads ipr, shpr
    {
      PackedFile(ipr[..], shpr[..])
    }

    constructor (prioBits: nat, words: nat)
      requires 1 <= prioBits <= 8 && words <= 124
      ensures Valid() && P == prioBits && ipr.Length == words && fresh(ipr) && fresh(shpr)
      ensures forall j :: ValidIrq(j, words) ==> File().At(j) == 0
    {
      P := prioBits;
      ipr, shpr := new word[words](_ => 0), new word[2](_ => 0);
      new;
      forall j | ValidIrq(j, words)
        ensures File().At(j) == 0
      {
        IndexMacros(j);
        FieldOfZero(BitShift(j));
      }
    }

    method SetPriority(irq: int, priority: word)
      requires Valid() && ValidIrq(irq, ipr.Length)
      modifies ipr, shpr
      ensures File() == old(File()).Set(P, irq, priority)
      ensures forall j :: ValidIrq(j, ipr.Length) ==>
                File().At(j) == if j == irq then Level(P, priority) else old(File().At(j))
    {
      ghost var before := File();
      IndexMacros(irq);
      if irq >= 0 {
        ipr[IpIdx(irq)] := PackedWord(P, ipr[IpIdx(irq)], irq, priority);
      } else {
        shpr[ShpIdx(irq)] := PackedWord(P, shpr[ShpIdx(irq)], irq, priority);
      }
      assert File() == before.Set(P, irq, priority);
      forall j | ValidIrq(j, ipr.Length)
        ensures File().At(j) == if j == irq then Level(P, priority) else before.At(j)
      {
        PackedSetAt(P, before, irq, priority, j);
      }
    }

    method GetPriority(irq: int) returns (r: word)
      requires Valid() && ValidIrq(irq, ipr.Length)
      ensures r == Got(P, File().At(irq))
    {
      IndexMacros(irq);
      if irq >= 0 {
        r := Shr(And(Shr(ipr[IpIdx(irq)], BitShift(irq)), 0xFF), 8 - P);
      } else {
        r := Shr(And(Shr(shpr[ShpIdx(irq)], BitShift(irq)), 0xFF), 8 - P);
      }
    }
  }

  /** `NVIC->IPR` and `SCB->SHPR` as bytes. */
  class ByteNvic {
    const P: nat
    const ipr: array<byte>
    const shpr: array<byte>

    ghost predicate Valid() {
      1 <= P <= 8 && ipr.Length <= 496 && shpr.Length == 12 && ipr != shpr
    }

    ghost function File(): ByteFile
      reads ipr, shpr
    {
      ByteFile(ipr[..], shpr[..])
    }

    constructor (prioBits: nat, bytes: nat)
      requires 1 <= prioBits <= 8 && bytes <= 496
      ensures Valid() && P == prioBits && ipr.Length == bytes && fresh(ipr) && fresh(shpr)
      ensures forall j :: ValidByteIrq(j, bytes) ==> File().At(j) == 0
    {
      P := prioBits;
      ipr, shpr := new byte[bytes](_ => 0), new byte[12](_ => 0);
      new;
      forall j | ValidByteIrq(j, bytes)
        ensures File().At(j) == 0
      {
        IndexMacros(j);
      }
    }

    method SetPriority(irq: int, priority: word)
      requires Valid() && ValidByteIrq(irq, ipr.Length)
      modifies ipr, shpr
      ensures File() == old(File()).Set(P, irq, priority)
      ensures forall j :: ValidByteIrq(j, ipr.Length) ==>
                File().At(j) == if j == irq then Level(P, priority) else old(File().At(j))
    {
      ghost var before := File();
      IndexMacros(irq);
      if irq >= 0 {
        ipr[Wrap(irq)] := And(Shl(priority, 8 - P), 0xFF);
      } else {
        shpr[ByteShpIdx(irq)] := And(Shl(priority, 8 - P), 0xFF);
      }
      assert File() == before.Set(P, irq, priority);
      forall j | ValidByteIrq(j, ipr.Length)
        ensures File().At(j) == if j == irq then Level(P, priority) else before.At(j)
      {
        ByteSetAt(P, before, irq, priority, j);
      }
    }

    method GetPriority(irq: int) returns (r: word)
      requires Valid() && ValidByteIrq(irq, ipr.Length)
      ensures r == Got(P, File().At(irq))
    {
      IndexMacros(irq);
      if irq >= 0 {
        r := Shr(ipr[Wrap(irq)], 8 - P);
      } else {
        r := Shr(shpr[ByteShpIdx(irq)], 8 - P);
      }
    }
  }
}
