/** Machine words as natural numbers.  `word` is a C `uint32_t`; its operators are defined by
    what they do to one bit at a time, and everything else about them is proved. */
module Words {
  type word = x: nat | x < 0x1_0000_0000
  type byte = x: nat | x < 256
  newtype uint32 = x: int | 0 <= x < 0x1_0000_0000

  function Pow2(n: nat): (r: nat)
    ensures r >= 1
  {
    if n == 0 then 1 else 2 * Pow2(n - 1)
  }

  /** The value a 32-bit register holds after the integer `x` is stored in it. */
  function Wrap(x: int): word {
    x % 0x1_0000_0000
  }

  lemma WrapOnce(x: int)
    requires -0x1_0000_0000 <= x < 0x1_0000_0000
    ensures Wrap(x) == if x >= 0 then x else x + 0x1_0000_0000
  {
  }

  predicate Bit(x: nat, i: nat) {
    if i == 0 then x % 2 == 1 else Bit(x / 2, i - 1)
  }

  /** `x >> n`, a place at a time. */
  function Shr(x: word, n: nat): word
    decreases n
  {
    if n == 0 then x else Shr(x / 2, n - 1)
  }

  /** `x << n`, a place at a time; what leaves bit 31 is lost. */
  function Shl(x: word, n: nat): word
    decreases n
  {
    if n == 0 then x else Shl(Wrap(2 * x), n - 1)
  }

  /** `x | y`. */
  function Or(x: nat, y: nat): nat {
    if x == 0 && y == 0 then 0
    else 2 * Or(x / 2, y / 2) + (if x % 2 == 1 || y % 2 == 1 then 1 else 0)
  }

  /** `x & y`. */
  function And(x: nat, y: nat): (r: nat)
    ensures r <= x && r <= y
  {
    if x == 0 || y == 0 then 0
    else 2 * And(x / 2, y / 2) + (if x % 2 == 1 && y % 2 == 1 then 1 else 0)
  }

  /** `~x`. */
  function Not(x: word): word {
    0x1_0000_0000 - 1 - x
  }

  lemma Pow2Monotone(m: nat, n: nat)
    requires m <= n
    ensures Pow2(m) <= Pow2(n)
    decreases n
  {
    if m < n {
      Pow2Monotone(m, n - 1);
    }
  }

  lemma Pow2Of32()
    ensures Pow2(8) == 256 && Pow2(31) == 0x8000_0000 && Pow2(32) == 0x1_0000_0000
  {
    assert Pow2(8) == 256;
    assert Pow2(16) == 65536;
    assert Pow2(24) == 0x100_0000;
  }

  /** A number below 2^n has no bit at or above n. */
  lemma {:induction false} HighBitsClear(x: nat, n: nat, i: nat)
    requires x < Pow2(n) && n <= i
    ensures !Bit(x, i)
    decreases i
  {
    if i != 0 {
      HighBitsClear(x / 2, if n == 0 then 0 else n - 1, i - 1);
    }
  }

  lemma OrHalves(x: nat, y: nat)
    ensures Or(x, y) / 2 == Or(x / 2, y / 2)
    ensures Or(x, y) % 2 == 1 <==> x % 2 == 1 || y % 2 == 1
  {
  }

  lemma {:induction false} BitOfOr(x: nat, y: nat, i: nat)
    ensures Bit(Or(x, y), i) == (Bit(x, i) || Bit(y, i))
    decreases i
  {
    OrHalves(x, y);
    if i != 0 {
      BitOfOr(x / 2, y / 2, i - 1);
    }
  }

  lemma {:induction false} BitOfAnd(x: nat, y: nat, i: nat)
    ensures Bit(And(x, y), i) == (Bit(x, i) && Bit(y, i))
    decreases i
  {
    if i != 0 {
      BitOfAnd(x / 2, y / 2, i - 1);
      if x == 0 || y == 0 {
        BitOfZero(i);
      }
    }
  }

  lemma {:induction false} BitOfZero(i: nat)
    ensures !Bit(0, i)
    decreases i
  {
    if i != 0 {
      BitOfZero(i - 1);
    }
  }

  lemma {:induction false} OrBelow(x: nat, y: nat, n: nat)
    requires x < Pow2(n) && y < Pow2(n)
    ensures Or(x, y) < Pow2(n)
    decreases n
  {
    if n != 0 {
      OrBelow(x / 2, y / 2, n - 1);
    }
  }

  lemma {:induction false} BitOfShr(x: word, n: nat, i: nat)
    ensures Bit(Shr(x, n), i) == Bit(x, i + n)
    decreases n
  {
    if n != 0 {
      BitOfShr(x / 2, n - 1, i);
    }
  }

  /** Doubling moves every bit up one place, and bit 31 out. */
  lemma BitOfDouble(x: word, i: nat)
    requires i < 32
    ensures Bit(Wrap(2 * x), i) == (i != 0 && Bit(x, i - 1))
  {
    HalfOfDouble(x);
    if i != 0 {
      Pow2Of32();
      BitBelow(x, 31, i - 1);
    }
  }

  lemma HalfOfDouble(x: word)
    ensures Wrap(2 * x) / 2 == x % 0x8000_0000 && Wrap(2 * x) % 2 == 0
  {
  }

  lemma ModuloBounds(x: nat, p: nat)
    requires p >= 1
    ensures x % p < p && x % p <= x
    ensures x < p ==> x % p == x
  {
    if x < p {
      ModuloUnique(x, p, 0, x);
    }
  }

  lemma {:induction false} BitBelow(x: nat, n: nat, i: nat)
    requires i < n
    ensures Bit(x % Pow2(n), i) == Bit(x, i)
    decreases i
  {
    HalveModulo(x, Pow2(n - 1));
    if i != 0 {
      BitBelow(x / 2, n - 1, i - 1);
    }
  }

  lemma HalveModulo(x: nat, p: nat)
    requires p >= 1
    ensures (x % (2 * p)) / 2 == (x / 2) % p
    ensures (x % (2 * p)) % 2 == x % 2
  {
    var q, r := x / (2 * p), x % (2 * p);
    assert x == q * (2 * p) + r;
    assert q * (2 * p) == 2 * (q * p);
    assert x / 2 == q * p + r / 2 && r / 2 < p;
    ModuloUnique(x / 2, p, q, r / 2);
  }

  lemma ModuloUnique(x: int, p: int, q: int, r: int)
    requires p >= 1 && 0 <= r < p && x == q * p + r
    ensures x % p == r && x / p == q
  {
    var d := x / p - q;
    assert d * p == r - x % p by {
      assert x == p * (x / p) + x % p;
      assert d * p == p * (x / p) - q * p;
    }
    MultipleGrows(d, p);
  }

  lemma MultipleGrows(d: int, p: int)
    requires p >= 1
    ensures d >= 1 ==> d * p >= p
    ensures d <= -1 ==> d * p <= -p
  {
    assert d * p == p + (d - 1) * p;
    assert d * p == -p + (d + 1) * p;
  }

  lemma {:induction false} BitOfShl(x: word, n: nat, i: nat)
    requires i < 32
    ensures Bit(Shl(x, n), i) == (n <= i && Bit(x, i - n))
    decreases n
  {
    if n != 0 {
      BitOfShl(Wrap(2 * x), n - 1, i);
      if n - 1 <= i {
        BitOfDouble(x, i - (n - 1));
      }
    }
  }

  /** A word is determined by its 32 bits. */
  lemma WordExtensionality(x: word, y: word)
    requires forall i: nat :: i < 32 ==> Bit(x, i) == Bit(y, i)
    ensures x == y
  {
    Pow2Of32();
    BitsDetermine(x, y, 32);
  }

  lemma {:induction false} BitsDetermine(x: nat, y: nat, n: nat)
    requires x < Pow2(n) && y < Pow2(n)
    requires forall i: nat :: i < n ==> Bit(x, i) == Bit(y, i)
    ensures x == y
    decreases n
  {
    if n != 0 {
      assert Bit(x, 0) == Bit(y, 0);
      forall i: nat | i < n - 1
        ensures Bit(x / 2, i) == Bit(y / 2, i)
      {
        assert Bit(x, i + 1) == Bit(y, i + 1);
      }
      BitsDetermine(x / 2, y / 2, n - 1);
    }
  }

  lemma BitOfNot(x: word, i: nat)
    requires i < 32
    ensures Bit(Not(x), i) == !Bit(x, i)
  {
    Pow2Of32();
    BitOfComplement(x, 32, i);
  }

  lemma {:induction false} BitOfComplement(x: nat, n: nat, i: nat)
    requires x < Pow2(n) && i < n
    ensures Bit(Pow2(n) - 1 - x, i) == !Bit(x, i)
    decreases i
  {
    assert (Pow2(n) - 1 - x) / 2 == Pow2(n - 1) - 1 - x / 2;
    if i != 0 {
      BitOfComplement(x / 2, n - 1, i - 1);
    }
  }

  // ---------------------------------------------------------------- arithmetic meaning

  /** The low `n` bits of a number. */
  function LowBits(x: nat, n: nat): nat {
    if n == 0 then 0 else 2 * LowBits(x / 2, n - 1) + x % 2
  }

  lemma {:induction false} LowBitsMasked(x: nat, n: nat)
    ensures And(x, Pow2(n) - 1) == LowBits(x, n)
    decreases n
  {
    if n != 0 {
      LowBitsMasked(x / 2, n - 1);
      AndOfOnes(x, Pow2(n - 1) - 1);
      assert Pow2(n) - 1 == 2 * (Pow2(n - 1) - 1) + 1;
    }
  }

  /** One more one in the mask lets one more bit through. */
  lemma AndOfOnes(x: nat, m: nat)
    ensures And(x, 2 * m + 1) == 2 * And(x / 2, m) + x % 2
  {
    assert (2 * m + 1) / 2 == m && (2 * m + 1) % 2 == 1;
  }

  lemma {:induction false} LowBitsSplit(x: nat, n: nat) returns (q: nat)
    ensures x == q * Pow2(n) + LowBits(x, n) && LowBits(x, n) < Pow2(n)
    decreases n
  {
    if n == 0 {
      q := x;
    } else {
      q := LowBitsSplit(x / 2, n - 1);
      DoubleProduct(q, Pow2(n - 1));
    }
  }

  lemma DoubleProduct(q: nat, p: nat)
    ensures q * (2 * p) == 2 * (q * p)
  {
  }

  /** Masking with n ones is reduction modulo 2^n. */
  lemma MaskIsModulo(x: nat, n: nat)
    ensures And(x, Pow2(n) - 1) == x % Pow2(n)
  {
    LowBitsMasked(x, n);
    var q := LowBitsSplit(x, n);
    ModuloUnique(x, Pow2(n), q, LowBits(x, n));
  }

  /** `x` with its low `k` bits cleared. */
  function Cleared(x: nat, k: nat): nat {
    if k == 0 then x else 2 * Cleared(x / 2, k - 1)
  }

  lemma {:induction false} MaskComplement(x: nat, k: nat, n: nat)
    requires k <= n && x < Pow2(n)
    ensures Pow2(k) <= Pow2(n)
    ensures And(x, Pow2(n) - Pow2(k)) == Cleared(x, k)
    decreases n
  {
    Pow2Monotone(k, n);
    if k == 0 {
      MaskAll(x, n);
    } else {
      Pow2Monotone(k - 1, n - 1);
      MaskComplement(x / 2, k - 1, n - 1);
      AndOfEven(x, Pow2(n - 1) - Pow2(k - 1));
    }
  }

  lemma MaskAll(x: nat, n: nat)
    requires x < Pow2(n)
    ensures And(x, Pow2(n) - 1) == x
  {
    MaskIsModulo(x, n);
    ModuloBounds(x, Pow2(n));
  }

  lemma {:induction false} ClearedIsMultiple(x: nat, k: nat)
    ensures Cleared(x, k) + x % Pow2(k) == x
    decreases k
  {
    if k != 0 {
      ClearedIsMultiple(x / 2, k - 1);
      HalveModulo(x, Pow2(k - 1));
    }
  }

  lemma {:induction false} BitOfCleared(x: nat, k: nat, t: nat)
    ensures Bit(Cleared(x, k), t) == (k <= t && Bit(x, t))
    decreases k
  {
    if k != 0 && t != 0 {
      BitOfCleared(x / 2, k - 1, t - 1);
    }
  }

  lemma AndOfEven(x: nat, m: nat)
    ensures And(x, 2 * m) == 2 * And(x / 2, m)
  {
    if x != 0 && m != 0 {
      assert (2 * m) % 2 == 0 && (2 * m) / 2 == m;
    }
  }

  lemma {:induction false} ShrIsDivide(x: word, n: nat)
    ensures Shr(x, n) == x / Pow2(n)
    decreases n
  {
    if n != 0 {
      ShrIsDivide(x / 2, n - 1);
      HalveDivide(x, Pow2(n - 1));
    }
  }

  lemma HalveDivide(x: nat, p: nat)
    requires p >= 1
    ensures (x / 2) / p == x / (2 * p)
  {
    var q, r := x / (2 * p), x % (2 * p);
    assert x == q * (2 * p) + r;
    assert q * (2 * p) == 2 * (q * p);
    assert x / 2 == q * p + r / 2 && r / 2 < p;
    ModuloUnique(x / 2, p, q, r / 2);
  }

  lemma {:induction false} ShlIsTimes(x: word, n: nat)
    requires x * Pow2(n) < 0x1_0000_0000
    ensures Shl(x, n) == x * Pow2(n)
    decreases n
  {
    if n != 0 {
      DoubleMoves(x, Pow2(n - 1));
      ShlDoubles(x, n);
      ShlIsTimes(2 * x, n - 1);
    }
  }

  lemma ShlDoubles(x: word, n: nat)
    requires n >= 1 && 2 * x < 0x1_0000_0000
    ensures Shl(x, n) == Shl(2 * x, n - 1)
  {
    WrapOnce(2 * x);
  }

  lemma DoubleMoves(x: nat, p: nat)
    requires p >= 1
    ensures x * (2 * p) == (2 * x) * p && 2 * x <= (2 * x) * p
  {
    assert (2 * x) * p == 2 * x + (2 * x) * (p - 1);
  }

  /** Fields that do not overlap are joined by addition. */
  lemma {:induction false} OrIsSum(a: nat, b: nat, n: nat)
    requires b < Pow2(n)
    ensures Or(a * Pow2(n), b) == a * Pow2(n) + b
    decreases n
  {
    if n == 0 {
      OrZero(a);
    } else {
      var h := a * Pow2(n - 1);
      assert a * Pow2(n) == 2 * h;
      OrIsSum(a, b / 2, n - 1);
    }
  }

  lemma {:induction false} OrZero(a: nat)
    ensures Or(a, 0) == a
  {
    if a != 0 {
      OrZero(a / 2);
    }
  }

  /** Testing a word against a one-bit mask reads that bit. */
  lemma {:induction false} TestBit(x: nat, k: nat)
    ensures And(x, Pow2(k)) != 0 <==> Bit(x, k)
    decreases k
  {
    if k != 0 {
      TestBit(x / 2, k - 1);
      if x == 0 {
        BitOfZero(k);
      }
    } else {
      assert And(x / 2, 0) == 0;
    }
  }

  lemma {:induction false} BitOfPow2(k: nat, i: nat)
    ensures Bit(Pow2(k), i) == (i == k)
    decreases i
  {
    if i == 0 {
    } else if k == 0 {
      BitOfZero(i - 1);
    } else {
      BitOfPow2(k - 1, i - 1);
    }
  }
}
