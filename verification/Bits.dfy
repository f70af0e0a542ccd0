/** The C++ operators `|`, `&`, `<<` and `>>` on unsigned words, bit by bit, and the
    arithmetic they amount to where the code uses them. */
module Bits {
  import opened Words

  function Shl(x: int, n: nat): (r: int)
    ensures x >= 0 ==> r >= 0
    decreases n
  {
    if n == 0 then x else 2 * Shl(x, n - 1)
  }

  function Shr(x: int, n: nat): (r: int)
    ensures x >= 0 ==> r >= 0
    decreases n
  {
    if n == 0 then x else Shr(x / 2, n - 1)
  }

  function Pow2(n: nat): (p: int)
    ensures p > 0
  {
    ShlPositive(1, n);
    Shl(1, n)
  }

  /** `x << p` on a 64-bit word. */
  function Shl64(x: nat, p: nat): (r: nat)
    ensures r < TWO_64
  {
    U64(Shl(x, p))
  }

  function BitOr(x: nat, y: nat): nat
  {
    if x == 0 then y
    else if y == 0 then x
    else (if x % 2 == 1 || y % 2 == 1 then 1 else 0) + 2 * BitOr(x / 2, y / 2)
  }

  function BitAnd(x: nat, y: nat): nat
  {
    if x == 0 || y == 0 then 0
    else (if x % 2 == 1 && y % 2 == 1 then 1 else 0) + 2 * BitAnd(x / 2, y / 2)
  }

  lemma {:induction false} ShlPositive(x: int, n: nat)
    requires x > 0
    ensures Shl(x, n) > 0
  {
    if n > 0 {
      ShlPositive(x, n - 1);
    }
  }

  lemma {:induction false} ShlAdd(x: int, y: int, n: nat)
    ensures Shl(x + y, n) == Shl(x, n) + Shl(y, n)
  {
    if n > 0 {
      ShlAdd(x, y, n - 1);
    }
  }

  lemma {:induction false} ShlShl(x: int, a: nat, b: nat)
    ensures Shl(Shl(x, a), b) == Shl(x, a + b)
  {
    if b > 0 {
      ShlShl(x, a, b - 1);
    }
  }

  lemma {:induction false} ShrShl(x: int, n: nat)
    ensures Shr(Shl(x, n), n) == x
  {
    if n > 0 {
      ShrShl(x, n - 1);
    }
  }

  lemma {:induction false} ShlMonotone(x: int, y: int, n: nat)
    requires x <= y
    ensures Shl(x, n) <= Shl(y, n)
    ensures x < y ==> Shl(x, n) < Shl(y, n)
  {
    if n > 0 {
      ShlMonotone(x, y, n - 1);
    }
  }

  /** Shifts by the amounts the code uses. */
  lemma ShlConstants(x: int)
    ensures Shl(x, 7) == 0x80 * x && Shl(x, 8) == 0x100 * x && Shl(x, 16) == TWO_16 * x
  {
  }

  lemma Shl32(x: int)
    ensures Shl(x, 32) == TWO_32 * x
  {
    ShlShl(x, 16, 16);
    ShlConstants(x);
    ShlConstants(TWO_16 * x);
  }

  lemma Shl63(x: int)
    ensures Shl(x, 63) == TWO_63 * x && Shl(x, 64) == TWO_64 * x
  {
    var y := TWO_32 * x;
    Shl32(x);
    ShlShl(x, 32, 16);
    ShlConstants(y);
    ShlShl(x, 48, 8);
    ShlConstants(TWO_16 * y);
    ShlShl(x, 56, 7);
    ShlConstants(0x100 * (TWO_16 * y));
    assert Shl(x, 64) == 2 * Shl(x, 63);
  }

  lemma {:induction false} PowMonotone(a: nat, b: nat)
    requires a <= b
    ensures Pow2(a) <= Pow2(b)
  {
    if a < b {
      PowMonotone(a, b - 1);
    }
  }

  /** Powers of two that fit 64 bits. */
  lemma PowBelow(n: nat)
    requires n <= 64
    ensures Pow2(n) <= TWO_64
    ensures n <= 63 ==> Pow2(n) <= TWO_63
    ensures n == 64 ==> Pow2(n) == TWO_64
    ensures n == 63 ==> Pow2(n) == TWO_63
  {
    PowMonotone(n, 64);
    if n <= 63 {
      PowMonotone(n, 63);
    }
    Shl63(1);
  }

  /** Shifting by the whole width leaves a multiple of 2^64. */
  lemma ShlWord(x: int, n: nat)
    requires n == 64
    ensures Shl(x, n) == TWO_64 * x
  {
    Shl63(x);
  }

  /** A shifted value below 2^k stays below 2^(k + n). */
  lemma ShlBelow(x: int, k: nat, n: nat)
    requires x < Pow2(k)
    ensures Shl(x, n) + Pow2(n) <= Pow2(k + n)
  {
    ShlMonotone(x + 1, Pow2(k), n);
    ShlAdd(x, 1, n);
    ShlShl(1, k, n);
  }

  lemma {:induction false} OrCommutes(x: nat, y: nat)
    ensures BitOr(x, y) == BitOr(y, x)
  {
    if x > 0 && y > 0 {
      OrCommutes(x / 2, y / 2);
    }
  }

  /** Or-ing a word below 2^n with one shifted left by n adds them. */
  lemma {:induction false} OrDisjoint(x: nat, y: nat, n: nat)
    requires x < Pow2(n)
    ensures BitOr(x, Shl(y, n)) == x + Shl(y, n)
    ensures BitOr(Shl(y, n), x) == x + Shl(y, n)
  {
    if n > 0 {
      OrDisjoint(x / 2, y, n - 1);
    }
    OrCommutes(x, Shl(y, n));
  }

  /** Masking the low k bits of a word, and shifting them out. */
  lemma {:induction false} LowHalf(x: nat, lo: nat, hi: nat, low: nat, k: nat)
    requires lo < Pow2(k) && x == lo + Shl(hi, k) && low == Pow2(k) - 1
    ensures BitAnd(x, low) == lo && Shr(x, k) == hi
  {
    if k > 0 {
      LowHalf(x / 2, lo / 2, hi, low / 2, k - 1);
    }
  }

  /** Masking the bits above k and shifting them down. */
  lemma {:induction false} HighHalf(x: nat, lo: nat, hi: nat, m: nat, high: nat, k: nat)
    requires lo < Pow2(k) && x == lo + Shl(hi, k) && high == Shl(m, k)
    ensures Shr(BitAnd(x, high), k) == BitAnd(hi, m)
  {
    if k > 0 {
      HighHalf(x / 2, lo / 2, hi, m, high / 2, k - 1);
    }
  }

  /** A mask as wide as the word keeps it whole. */
  lemma FullMask(x: nat, m: nat, k: nat)
    requires x < Pow2(k) && m == Pow2(k) - 1
    ensures BitAnd(x, m) == x
  {
    ShlAdd(0, 0, k);
    LowHalf(x, x, 0, m, k);
  }
}
