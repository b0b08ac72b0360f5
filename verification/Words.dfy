/** Unsigned 64-bit machine words as integers, and the two facts the code relies on about
    them: a power-of-two mask is a remainder, and wrapping at 2^64 does not disturb it. */
module Words {
  const WORD: nat := 0x1_0000_0000_0000_0000
  const SIZE_MAX: nat := WORD - 1
  const HALF_MAX: nat := 0x7FFF_FFFF_FFFF_FFFF  // SIZE_MAX >> 1

  type Word = x: int | 0 <= x < WORD

  function Wrap(x: int): Word {
    x % WORD
  }

  lemma {:induction false} WrapSmall(x: Word)
    ensures Wrap(x) == x
  {
    DivisionIsUnique(x, WORD, 0, x);
  }

  lemma {:induction false} WrapAgain(x: int)
    ensures Wrap(Wrap(x) + 1) == Wrap(x + 1)
    ensures Wrap(Wrap(x) - 1) == Wrap(x - 1)
  {
  }

  function Pow2(k: nat): (p: nat)
    ensures p >= 1
  {
    if k == 0 then 1 else 2 * Pow2(k - 1)
  }

  ghost predicate IsPowerOfTwo(n: int) {
    exists k: nat :: n == Pow2(k)
  }

  /** Bitwise AND, bit by bit from the low end. */
  function BitAnd(x: nat, y: nat): nat {
    if x == 0 || y == 0 then 0
    else 2 * BitAnd(x / 2, y / 2) + (if x % 2 == 1 && y % 2 == 1 then 1 else 0)
  }

  lemma {:induction false} ProductGrows(d: nat, a: int, b: int)
    requires a < b
    ensures d * a + d <= d * b
    decreases b - a
  {
    assert d * b == d * (b - 1) + d;
    if a < b - 1 {
      ProductGrows(d, a, b - 1);
    }
  }

  lemma {:induction false} QuotientIsUnique(d: nat, a: int, b: int, q: int, r: int)
    requires d * a + b == d * q + r && 0 <= b < d && 0 <= r < d
    ensures a == q && b == r
  {
    if a < q {
      ProductGrows(d, a, q);
    } else if q < a {
      ProductGrows(d, q, a);
    }
  }

  lemma {:induction false} DivisionIsUnique(x: int, d: int, q: int, r: int)
    requires 0 <= r < d && x == d * q + r
    ensures x / d == q && x % d == r
  {
    QuotientIsUnique(d, x / d, x % d, q, r);
  }

  /** Reducing modulo a multiple of n first does not change the remainder by n. */
  lemma {:induction false} RemainderOfRemainder(x: int, n: nat, m: nat)
    requires n > 0 && m > 0 && n * m > 0
    ensures (x % (n * m)) % n == x % n
  {
    var a, b := x / (n * m), x % (n * m);
    var c, r := b / n, b % n;
    calc {
      x;
      (n * m) * a + n * c + r;
      n * (m * a) + n * c + r;
      n * (m * a + c) + r;
    }
    DivisionIsUnique(x, n, m * a + c, r);
  }

  /** Keeping the k low bits of a number is its remainder by the k-th power of two. */
  lemma {:induction false} MaskIsRemainder(x: nat, k: nat)
    ensures BitAnd(x, Pow2(k) - 1) == x % Pow2(k)
  {
    if x == 0 {
      DivisionIsUnique(0, Pow2(k), 0, 0);
    } else if k == 0 {
      DivisionIsUnique(x, 1, x, 0);
    } else {
      var p := Pow2(k - 1);
      HalveMask(x, p);
      MaskIsRemainder(x / 2, k - 1);
      HalvedRemainder(x, p);
    }
  }

  lemma {:induction false} HalveMask(x: nat, p: nat)
    requires x > 0 && p > 0
    ensures BitAnd(x, 2 * p - 1) == 2 * BitAnd(x / 2, p - 1) + x % 2
  {
    assert (2 * p - 1) / 2 == p - 1;
  }

  lemma {:induction false} HalvedRemainder(x: nat, p: nat)
    requires p > 0
    ensures x % (2 * p) == 2 * ((x / 2) % p) + x % 2
  {
    var q, r := (x / 2) / p, (x / 2) % p;
    assert x == 2 * (p * q + r) + x % 2;
    assert (2 * p) * q == 2 * (p * q);
    DivisionIsUnique(x, 2 * p, q, 2 * r + x % 2);
  }

  lemma {:induction false} Pow2Sum(a: nat, b: nat)
    ensures Pow2(a + b) == Pow2(a) * Pow2(b)
  {
    if a > 0 {
      Pow2Sum(a - 1, b);
    }
  }

  lemma {:induction false} Pow2Monotone(a: nat, b: nat)
    requires a <= b
    ensures Pow2(a) <= Pow2(b)
    ensures a < b ==> 2 * Pow2(a) <= Pow2(b)
  {
    if a < b {
      Pow2Monotone(a, b - 1);
    }
  }

  lemma {:induction false} WordIsPow2()
    ensures Pow2(64) == WORD && Pow2(63) == HALF_MAX + 1
  {
    assert Pow2(8) == 256;
    Pow2Sum(8, 8);
    Pow2Sum(16, 16);
    assert Pow2(32) == 0x1_0000_0000;
    Pow2Sum(32, 32);
    assert Pow2(64) == 2 * Pow2(63);
  }

  /** The powers of two that fit a word are the divisors 2^0 .. 2^63. */
  lemma {:induction false} PowerInWord(n: int) returns (k: nat)
    requires IsPowerOfTwo(n) && n < WORD
    ensures k <= 63 && n == Pow2(k) && n <= HALF_MAX + 1
  {
    k :| n == Pow2(k);
    WordIsPow2();
    if k >= 64 {
      Pow2Monotone(64, k);
    } else {
      Pow2Monotone(k, 63);
    }
  }

  lemma {:induction false} PowerFits(n: Word)
    requires IsPowerOfTwo(n)
    ensures n <= HALF_MAX + 1
  {
    var k := PowerInWord(n);
  }

  /** Wrapping at 2^64 first does not change the remainder by a power of two that fits. */
  lemma {:induction false} WrapThenRemainder(x: int, n: int)
    requires IsPowerOfTwo(n) && n < WORD
    ensures Wrap(x) % n == x % n
  {
    var k := PowerInWord(n);
    WordIsPow2();
    Pow2Sum(k, 64 - k);
    RemainderOfRemainder(x, n, Pow2(64 - k));
  }

  /** Masking the wrapped value is the remainder of the unwrapped one. */
  lemma {:induction false} MaskedIndex(x: int, n: int)
    requires IsPowerOfTwo(n) && n < WORD
    ensures BitAnd(Wrap(x), n - 1) == x % n
  {
    var k := PowerInWord(n);
    MaskIsRemainder(Wrap(x), k);
    WrapThenRemainder(x, n);
  }

  /** Masking with all ones keeps a word, masking with zero clears it. */
  lemma {:induction false} MaskAllOrNothing(x: Word)
    ensures BitAnd(x, SIZE_MAX) == x && BitAnd(x, 0) == 0
  {
    WordIsPow2();
    MaskIsRemainder(x, 64);
  }
}
