/** Machine words as natural numbers, with the C bitwise operators defined one bit at a
    time, and the laws that turn shifts and masks into division and remainder. */
module Words {

  /** Number of values of a 64-bit word. */
  const WORD_LIMIT: nat := 0x1_0000_0000_0000_0000

  function Pow2(k: nat): (p: nat)
    ensures p > 0
  {
    if k == 0 then 1 else 2 * Pow2(k - 1)
  }

  /** Bit `i` of `w`. */
  predicate Bit(w: nat, i: nat)
  {
    if i == 0 then w % 2 == 1 else Bit(w / 2, i - 1)
  }

  function BitAnd(a: nat, b: nat): nat
  {
    if a == 0 || b == 0 then 0
    else 2 * BitAnd(a / 2, b / 2) + (if a % 2 == 1 && b % 2 == 1 then 1 else 0)
  }

  function BitOr(a: nat, b: nat): nat
    decreases a + b
  {
    if a == 0 then b else if b == 0 then a
    else 2 * BitOr(a / 2, b / 2) + (if a % 2 == 1 || b % 2 == 1 then 1 else 0)
  }

  /** `~w` on 64 bits. */
  function BitNot(w: nat): nat
    requires w < WORD_LIMIT
  {
    WORD_LIMIT - 1 - w
  }

  /** `w >> k`, one place at a time. */
  function ShiftRight(w: nat, k: nat): nat
  {
    if k == 0 then w else ShiftRight(w / 2, k - 1)
  }

  /** `w << k` before truncation to 64 bits. */
  function ShiftLeft(w: nat, k: nat): nat
  {
    if k == 0 then w else 2 * ShiftLeft(w, k - 1)
  }

  // ---- bit-by-bit meaning of the operators ----

  lemma {:induction false} BitOfZero(i: nat)
    ensures !Bit(0, i)
  {
    if i > 0 {
      BitOfZero(i - 1);
    }
  }

  lemma {:induction false} BitOfAnd(a: nat, b: nat, i: nat)
    ensures Bit(BitAnd(a, b), i) <==> Bit(a, i) && Bit(b, i)
    decreases a
  {
    BitOfZero(i);
    if a != 0 && b != 0 {
      if i > 0 {
        BitOfAnd(a / 2, b / 2, i - 1);
      }
    }
  }

  lemma {:induction false} BitOfOr(a: nat, b: nat, i: nat)
    ensures Bit(BitOr(a, b), i) <==> Bit(a, i) || Bit(b, i)
    decreases a + b
  {
    BitOfZero(i);
    if a != 0 && b != 0 {
      if i > 0 {
        BitOfOr(a / 2, b / 2, i - 1);
      }
    }
  }

  lemma {:induction false} BitOfPow2(k: nat, i: nat)
    ensures Bit(Pow2(k), i) <==> i == k
  {
    if k == 0 {
      if i > 0 {
        BitOfZero(i - 1);
      }
    } else if i > 0 {
      BitOfPow2(k - 1, i - 1);
    }
  }

  lemma HalfOfComplement(p: nat, w: nat)
    requires w < 2 * p
    ensures (2 * p - 1 - w) / 2 == p - 1 - w / 2 && ((2 * p - 1 - w) % 2 == 1 <==> w % 2 == 0)
  {
  }

  lemma {:induction false} BitOfComplement(w: nat, k: nat, i: nat)
    requires w < Pow2(k) && i < k
    ensures Bit(Pow2(k) - 1 - w, i) <==> !Bit(w, i)
  {
    HalfOfComplement(Pow2(k - 1), w);
    if i > 0 {
      BitOfComplement(w / 2, k - 1, i - 1);
    }
  }

  /** A word with any bit set is not zero, and a nonzero word has some bit set. */
  lemma {:induction false} NonzeroHasBit(w: nat) returns (i: nat)
    requires w != 0
    ensures Bit(w, i)
  {
    if w % 2 == 1 {
      i := 0;
    } else {
      var j := NonzeroHasBit(w / 2);
      i := j + 1;
    }
  }

  lemma {:induction false} Pow2Sum(a: nat, b: nat)
    ensures Pow2(a + b) == Pow2(a) * Pow2(b)
  {
    if a > 0 {
      Pow2Sum(a - 1, b);
      assert Pow2(a) * Pow2(b) == 2 * (Pow2(a - 1) * Pow2(b));
    }
  }

  lemma Pow2Product(a: nat, b: nat, c: nat, p: nat, q: nat)
    requires c == a + b && Pow2(a) == p && Pow2(b) == q
    ensures Pow2(c) == p * q
  {
    Pow2Sum(a, b);
  }

  lemma WordLimitIsPow2()
    ensures Pow2(12) == 4096 && Pow2(52) == 0x10_0000_0000_0000 && Pow2(64) == WORD_LIMIT
  {
    assert Pow2(2) == 4;
    Pow2Product(2, 2, 4, 4, 4);
    Pow2Product(4, 4, 8, 16, 16);
    Pow2Product(8, 4, 12, 0x100, 16);
    Pow2Product(12, 8, 20, 0x1000, 0x100);
    Pow2Product(20, 20, 40, 0x10_0000, 0x10_0000);
    Pow2Product(40, 12, 52, 0x100_0000_0000, 0x1000);
    Pow2Product(52, 12, 64, 0x10_0000_0000_0000, 0x1000);
  }

  // ---- single-bit updates, as the page bitmap uses them ----

  /** `(w & (1ULL << k)) != 0` reads bit `k`. */
  lemma AndPow2TestsBit(w: nat, k: nat)
    ensures BitAnd(w, Pow2(k)) != 0 <==> Bit(w, k)
  {
    if BitAnd(w, Pow2(k)) != 0 {
      var i := NonzeroHasBit(BitAnd(w, Pow2(k)));
      BitOfAnd(w, Pow2(k), i);
      BitOfPow2(k, i);
    } else {
      BitOfZero(k);
      BitOfAnd(w, Pow2(k), k);
      BitOfPow2(k, k);
    }
  }

  /** `w | (1ULL << k)` sets bit `k` and keeps every other bit. */
  lemma OrPow2SetsBit(w: nat, k: nat, i: nat)
    ensures Bit(BitOr(w, Pow2(k)), i) <==> i == k || Bit(w, i)
  {
    BitOfOr(w, Pow2(k), i);
    BitOfPow2(k, i);
  }

  lemma {:induction false} Pow2Monotone(j: nat, k: nat)
    requires j < k
    ensures 2 * Pow2(j) <= Pow2(k)
  {
    if j < k - 1 {
      Pow2Monotone(j, k - 1);
    }
  }

  /** `w & ~(1ULL << k)` clears bit `k` and keeps every other bit of the word. */
  lemma AndNotPow2ClearsBit(w: nat, k: nat, i: nat)
    requires k < 64 && i < 64
    ensures Pow2(k) < WORD_LIMIT
    ensures Bit(BitAnd(w, BitNot(Pow2(k))), i) <==> i != k && Bit(w, i)
  {
    WordLimitIsPow2();
    Pow2Monotone(k, 64);
    BitOfAnd(w, BitNot(Pow2(k)), i);
    BitOfComplement(Pow2(k), 64, i);
    BitOfPow2(k, i);
  }

  /** `memset(.., 0xFF, ..)` sets every bit. */
  lemma AllOnesHasBit(i: nat)
    requires i < 64
    ensures Bit(WORD_LIMIT - 1, i)
  {
    WordLimitIsPow2();
    BitOfZero(i);
    BitOfComplement(0, 64, i);
  }

  // ---- masks and shifts as division and remainder ----

  lemma DivideTwice(x: nat, p: nat)
    requires p > 0
    ensures x / 2 / p == x / (2 * p)
    ensures x % (2 * p) == 2 * (x / 2 % p) + x % 2
  {
    var q, r := x / 2 / p, x / 2 % p;
    assert x / 2 == q * p + r;
    assert x == q * (2 * p) + (2 * r + x % 2);
    QuotientIsUnique(x, 2 * p, q, 2 * r + x % 2);
  }

  /** Bit `k` is the last bit of the quotient by 2^k. */
  lemma {:induction false} BitIsQuotient(w: nat, k: nat)
    ensures Bit(w, k) <==> w / Pow2(k) % 2 == 1
  {
    if k > 0 {
      BitIsQuotient(w / 2, k - 1);
      DivideTwice(w, Pow2(k - 1));
    }
  }

  lemma QuotientIsUnique(x: nat, d: nat, q: nat, r: nat)
    requires r < d && x == q * d + r
    ensures x / d == q && x % d == r
  {
    var e := x / d - q;
    assert e * d == r - x % d by {
      assert x == x / d * d + x % d;
      assert (x / d - q) * d == x / d * d - q * d;
    }
    assert e == 0 by {
      ProductOutOfRange(e, d);
    }
  }

  lemma ProductOutOfRange(e: int, d: nat)
    ensures e >= 1 ==> e * d >= d
    ensures e <= -1 ==> e * d <= -(d as int)
  {
    if e >= 1 {
      assert e * d == d + (e - 1) * d;
    } else if e <= -1 {
      assert e * d == -(d as int) + (e + 1) * d;
    }
  }

  /** `x & (2^k - 1)` is the remainder modulo 2^k. */
  lemma {:induction false} AndLowMask(x: nat, k: nat)
    ensures BitAnd(x, Pow2(k) - 1) == x % Pow2(k)
  {
    if k > 0 {
      AndLowMask(x / 2, k - 1);
      DivideTwice(x, Pow2(k - 1));
      var m := Pow2(k) - 1;
      assert m / 2 == Pow2(k - 1) - 1 && m % 2 == 1;
    }
  }

  /** A right shift divides by 2^k. */
  lemma {:induction false} ShiftRightDivides(x: nat, k: nat)
    ensures ShiftRight(x, k) == x / Pow2(k)
  {
    if k > 0 {
      DivideTwice(x, Pow2(k - 1));
      ShiftRightDivides(x / 2, k - 1);
    }
  }

  /** A left shift multiplies by 2^k. */
  lemma {:induction false} ShiftLeftMultiplies(x: nat, k: nat)
    ensures ShiftLeft(x, k) == x * Pow2(k)
  {
    if k > 0 {
      ShiftLeftMultiplies(x, k - 1);
      assert x * Pow2(k) == 2 * (x * Pow2(k - 1));
    }
  }

  /** A mask whose low `k` bits are clear selects from the shifted word. */
  lemma {:induction false} AndShiftedMask(x: nat, m: nat, k: nat)
    ensures BitAnd(x, ShiftLeft(m, k)) == ShiftLeft(BitAnd(ShiftRight(x, k), m), k)
  {
    if k > 0 {
      AndShiftedMask(x / 2, m, k - 1);
      var h := ShiftLeft(m, k - 1);
      assert BitAnd(x, 2 * h) == 2 * BitAnd(x / 2, h);
    }
  }

  /** `a | b` is a sum when `a` has its low `k` bits clear and `b` fits in them. */
  lemma {:induction false} OrOfLowPart(a: nat, b: nat, k: nat)
    requires b < Pow2(k)
    ensures BitOr(ShiftLeft(a, k), b) == ShiftLeft(a, k) + b
  {
    if k > 0 {
      OrOfLowPart(a, b / 2, k - 1);
    }
  }

  /** A word with its low `k` bits clear shares no bit with a number below 2^k. */
  lemma {:induction false} AndOfLowPart(a: nat, b: nat, k: nat)
    requires b < Pow2(k)
    ensures BitAnd(ShiftLeft(a, k), b) == 0
  {
    if k > 0 {
      AndOfLowPart(a, b / 2, k - 1);
    }
  }

  /** Words with the same bits are equal. */
  lemma {:induction false} SameBits(a: nat, b: nat)
    requires forall i: nat :: Bit(a, i) <==> Bit(b, i)
    ensures a == b
    decreases a + b
  {
    assert Bit(a, 0) <==> Bit(b, 0);
    if a != 0 || b != 0 {
      forall i: nat
        ensures Bit(a / 2, i) <==> Bit(b / 2, i)
      {
        assert Bit(a, i + 1) <==> Bit(b, i + 1);
      }
      SameBits(a / 2, b / 2);
    }
  }

  lemma AndOverOr(a: nat, b: nat, m: nat)
    ensures BitAnd(BitOr(a, b), m) == BitOr(BitAnd(a, m), BitAnd(b, m))
  {
    forall i: nat
      ensures Bit(BitAnd(BitOr(a, b), m), i) <==> Bit(BitOr(BitAnd(a, m), BitAnd(b, m)), i)
    {
      BitOfAnd(BitOr(a, b), m, i);
      BitOfOr(a, b, i);
      BitOfOr(BitAnd(a, m), BitAnd(b, m), i);
      BitOfAnd(a, m, i);
      BitOfAnd(b, m, i);
    }
    SameBits(BitAnd(BitOr(a, b), m), BitOr(BitAnd(a, m), BitAnd(b, m)));
  }

  lemma {:induction false} AndSplits(w: nat, m: nat, k: nat)
    requires m < Pow2(k) && w < Pow2(k)
    ensures BitAnd(w, m) + BitAnd(w, Pow2(k) - 1 - m) == w
  {
    if k > 0 {
      assert (Pow2(k) - 1 - m) / 2 == Pow2(k - 1) - 1 - m / 2;
      AndSplits(w / 2, m / 2, k - 1);
    } else {
      assert w == 0;
    }
  }
}
