/** Machine-integer operations on unbounded naturals: powers of two, bitwise
    `and`, shifts, masks, single bits and population count.  Every mask or shift
    the modelled code performs is written with these functions, and the lemmas
    give their arithmetic meaning. */
module Bits {

  function Pow2(n: nat): (r: nat)
    ensures r >= 1
  {
    if n == 0 then 1 else 2 * Pow2(n - 1)
  }

  /** `is_power_of_two` of Rust's unsigned integers (zero is not one). */
  predicate IsPow2(n: nat)
  {
    n == 1 || (n > 1 && n % 2 == 0 && IsPow2(n / 2))
  }

  /** Bitwise `&`. */
  function And(a: nat, b: nat): (r: nat)
    decreases a + b
  {
    if a == 0 || b == 0 then 0
    else (if a % 2 == 1 && b % 2 == 1 then 1 else 0) + 2 * And(a / 2, b / 2)
  }

  /** `a & !mask` on words wide enough to hold `a`: clears the bits of `mask`. */
  function AndNot(a: nat, mask: nat): (r: int)
  {
    a - And(a, mask)
  }

  /** `x >> n`. */
  function Shr(x: nat, n: nat): (r: nat)
    decreases n
  {
    if n == 0 then x else Shr(x / 2, n - 1)
  }

  /** The low `n` bits of `x`. */
  function LowBits(x: nat, n: nat): (r: nat)
    decreases n
  {
    if n == 0 then 0 else x % 2 + 2 * LowBits(x / 2, n - 1)
  }

  /** Bit `i` of `x`, counting from the least significant bit. */
  predicate Bit(x: nat, i: nat)
  {
    Shr(x, i) % 2 == 1
  }

  /** `count_ones`. */
  function PopCount(x: nat): (r: nat)
  {
    if x == 0 then 0 else x % 2 + PopCount(x / 2)
  }

  // ---------------------------------------------------------------- powers of two

  lemma {:induction false} Pow2Add(a: nat, b: nat)
    ensures Pow2(a + b) == Pow2(a) * Pow2(b)
  {
    if a == 0 {
    } else {
      Pow2Add(a - 1, b);
      calc {
        Pow2(a + b);
        2 * Pow2(a - 1 + b);
        2 * (Pow2(a - 1) * Pow2(b));
        (2 * Pow2(a - 1)) * Pow2(b);
        Pow2(a) * Pow2(b);
      }
    }
  }

  lemma {:induction false} Pow2Mono(a: nat, b: nat)
    requires a <= b
    ensures Pow2(a) <= Pow2(b)
  {
    if a < b { Pow2Mono(a, b - 1); }
  }

  /** The logarithm of a power of two. */
  function Log2(n: nat): (k: nat)
    requires IsPow2(n)
    ensures n == Pow2(k)
  {
    if n == 1 then 0 else 1 + Log2(n / 2)
  }

  lemma {:induction false} Pow2IsPow2(k: nat)
    ensures IsPow2(Pow2(k))
  {
    if k > 0 { Pow2IsPow2(k - 1); }
  }

  /** Number of 32-bit words. */
  const WORD: nat := 0x1_0000_0000

  /** `as u32`, or a counter that wraps at 32 bits. */
  function AsWord(n: nat): (r: nat)
    ensures r < WORD && (n < WORD ==> r == n)
  {
    n % WORD
  }

  /** Powers of two that bound machine words. */
  lemma WordSizes()
    ensures Pow2(8) == 0x100 && Pow2(16) == 0x1_0000 && Pow2(32) == WORD && Pow2(33) == 2 * WORD
  {
    assert Pow2(8) == 256;
    Pow2Add(8, 8);
    Pow2Add(16, 16);
  }

  // ---------------------------------------------------------------- division

  lemma MulMono(a: int, b: int, c: nat)
    requires a <= b
    ensures a * c <= b * c
  {
    assert (b - a) * c >= 0;
  }

  lemma MulDouble(h: nat, p: nat, q: nat)
    requires q == 2 * p
    ensures h * q == 2 * (h * p)
  {
  }

  /** Quotient and remainder are determined by their defining equation. */
  lemma DivModUnique(x: nat, d: nat, q: nat, r: nat)
    requires d > 0 && x == q * d + r && r < d
    ensures x / d == q && x % d == r
  {
    QuotientUnique(d, x / d, x % d, q, r);
  }

  lemma QuotientUnique(d: nat, q1: int, r1: nat, q2: int, r2: nat)
    requires r1 < d && r2 < d && q1 * d + r1 == q2 * d + r2
    ensures q1 == q2 && r1 == r2
  {
    if q1 < q2 {
      MulMono(q1 + 1, q2, d);
      assert false;
    } else if q2 < q1 {
      MulMono(q2 + 1, q1, d);
      assert false;
    }
  }

  lemma ModSucc(n: nat, d: nat)
    requires d > 0 && n % d + 1 < d
    ensures (n + 1) % d == n % d + 1
  {
    DivModUnique(n + 1, d, n / d, n % d + 1);
  }

  lemma ModBoundary(n: nat, c: nat, d: nat)
    requires d > 0 && n % d + c == d
    ensures (n + c) % d == 0
  {
    var q := n / d;
    assert n + c == q * d + d;
    assert q * d + d == (q + 1) * d;
    DivModUnique(n + c, d, q + 1, 0);
  }

  /** A number splits into its high and low bits at position `n`. */
  lemma {:induction false} SplitAt(x: nat, n: nat)
    ensures x == Shr(x, n) * Pow2(n) + LowBits(x, n)
    ensures LowBits(x, n) < Pow2(n)
  {
    if n == 0 {
    } else {
      SplitAt(x / 2, n - 1);
      MulDouble(Shr(x / 2, n - 1), Pow2(n - 1), Pow2(n));
    }
  }

  /** Shifting and masking are division and remainder by a power of two. */
  lemma ShrIsDiv(x: nat, n: nat)
    ensures Shr(x, n) == x / Pow2(n)
    ensures LowBits(x, n) == x % Pow2(n)
  {
    SplitAt(x, n);
    DivModUnique(x, Pow2(n), Shr(x, n), LowBits(x, n));
  }

  /** The high and low parts of a sum `h * 2^n + l`. */
  lemma JoinAt(h: nat, l: nat, n: nat)
    requires l < Pow2(n)
    ensures h * Pow2(n) >= 0
    ensures Shr(h * Pow2(n) + l, n) == h && LowBits(h * Pow2(n) + l, n) == l
  {
    assert h * Pow2(n) >= 0;
    var x := h * Pow2(n) + l;
    SplitAt(x, n);
    QuotientUnique(Pow2(n), Shr(x, n), LowBits(x, n), h, l);
  }

  lemma {:induction false} ShrShr(x: nat, a: nat, b: nat)
    ensures Shr(Shr(x, a), b) == Shr(x, a + b)
    decreases a
  {
    if a > 0 { ShrShr(x / 2, a - 1, b); }
  }

  lemma {:induction false} ShrZero(n: nat)
    ensures Shr(0, n) == 0 && LowBits(0, n) == 0
  {
    if n > 0 { ShrZero(n - 1); }
  }

  /** Reducing modulo `2^b` first does not change the low `a <= b` bits. */
  lemma {:induction false} LowBitsLowBits(x: nat, a: nat, b: nat)
    requires a <= b
    ensures LowBits(LowBits(x, b), a) == LowBits(x, a)
    decreases a
  {
    if a > 0 { LowBitsLowBits(x / 2, a - 1, b - 1); }
  }

  // ---------------------------------------------------------------- masks

  /** Masking with `2^k - 1` keeps the low `k` bits. */
  lemma {:induction false} AndLowMask(x: nat, k: nat)
    ensures And(x, Pow2(k) - 1) == LowBits(x, k)
    decreases k
  {
    if k == 0 {
    } else if x == 0 {
      ShrZero(k);
    } else {
      var m := Pow2(k) - 1;
      assert m % 2 == 1 && m / 2 == Pow2(k - 1) - 1;
      AndLowMask(x / 2, k - 1);
    }
  }

  /** Masking with `size - 1` for a power of two `size` is reduction modulo `size`. */
  lemma AndSizeMask(x: nat, size: nat)
    requires IsPow2(size)
    ensures And(x, size - 1) == x % size
  {
    var k := Log2(size);
    AndLowMask(x, k);
    ShrIsDiv(x, k);
  }

  /** `x & !(size - 1)` rounds `x` down to a multiple of `size`. */
  lemma AndNotRoundsDown(x: nat, size: nat)
    requires IsPow2(size)
    ensures AndNot(x, size - 1) == x - x % size
  {
    AndSizeMask(x, size);
  }

  lemma AndNotBounds(x: nat, size: nat)
    requires IsPow2(size)
    ensures 0 <= AndNot(x, size - 1) <= x < AndNot(x, size - 1) + size
  {
    hide And, Shr, LowBits, IsPow2;
    var k := Log2(size);
    AndLowMask(x, k);
    SplitAt(x, k);
    assert Shr(x, k) * Pow2(k) >= 0;
  }

  /** Testing a single bit with `x & (1 << i)`. */
  lemma {:induction false} AndSingleBit(x: nat, i: nat)
    ensures And(x, Pow2(i)) == if Bit(x, i) then Pow2(i) else 0
    decreases i
  {
    if x == 0 {
      ShrZero(i);
    } else if i == 0 {
      assert And(x / 2, 0) == 0;
    } else {
      AndSingleBit(x / 2, i - 1);
      assert Pow2(i) % 2 == 0 && Pow2(i) / 2 == Pow2(i - 1);
    }
  }

  // ---------------------------------------------------------------- bits and counts

  /** Adding `2^i` to a number below `2^i` sets bit `i` and no other. */
  lemma {:induction false} SetBit(x: nat, i: nat, j: nat)
    requires x < Pow2(i)
    ensures Bit(x + Pow2(i), j) == (j == i || Bit(x, j))
    decreases i, j
  {
    if i == 0 {
      assert x == 0 && x + Pow2(i) == 1;
      if j > 0 {
        ShrZero(j - 1);
        ShrZero(j);
      }
    } else if j == 0 {
      assert (x + Pow2(i)) % 2 == x % 2;
    } else {
      assert (x + Pow2(i)) / 2 == x / 2 + Pow2(i - 1);
      SetBit(x / 2, i - 1, j - 1);
    }
  }

  /** Numbers below `2^i` have no bit at position `i` or above. */
  lemma {:induction false} NoHighBit(x: nat, i: nat, j: nat)
    requires x < Pow2(i) && i <= j
    ensures !Bit(x, j)
    decreases i
  {
    if i == 0 {
      ShrZero(j);
    } else {
      NoHighBit(x / 2, i - 1, j - 1);
    }
  }

  /** Number of set bits at positions below `n`: what a masked `count_ones` counts. */
  function Rank(x: nat, n: nat): (r: nat)
  {
    if n == 0 then 0 else Rank(x, n - 1) + (if Bit(x, n - 1) then 1 else 0)
  }

  /** `(x & (2^n - 1)).count_ones()` counts the set bits below position `n`. */
  lemma MaskedCountIsRank(x: nat, n: nat)
    ensures PopCount(And(x, Pow2(n) - 1)) == Rank(x, n)
  {
    AndLowMask(x, n);
    PopCountLowBits(x, n);
  }

  lemma {:induction false} PopCountLowBits(x: nat, n: nat)
    ensures PopCount(LowBits(x, n)) == Rank(x, n)
    decreases n
  {
    if n > 0 {
      PopCountLowBits(x / 2, n - 1);
      RankShift(x, n);
      var y := LowBits(x, n);
      assert y % 2 == x % 2 && y / 2 == LowBits(x / 2, n - 1);
      if y == 0 { assert PopCount(y / 2) == 0; }
    }
  }

  lemma {:induction false} RankShift(x: nat, n: nat)
    requires n > 0
    ensures Rank(x, n) == x % 2 + Rank(x / 2, n - 1)
  {
    if n == 1 {
      assert Rank(x, 1) == Rank(x, 0) + (if Bit(x, 0) then 1 else 0);
    } else {
      RankShift(x, n - 1);
    }
  }

  /** All 64 bits counted: `count_ones` of a word below `2^n` is its rank at `n`. */
  lemma {:induction false} PopCountIsRank(x: nat, n: nat)
    requires x < Pow2(n)
    ensures PopCount(x) == Rank(x, n)
    decreases n
  {
    if n > 0 {
      PopCountIsRank(x / 2, n - 1);
      RankShift(x, n);
    }
  }

  /** The rank only looks at the bits below `n`. */
  lemma {:induction false} RankCongruent(x: nat, y: nat, n: nat)
    requires forall j :: 0 <= j < n ==> Bit(x, j) == Bit(y, j)
    ensures Rank(x, n) == Rank(y, n)
  {
    if n > 0 { RankCongruent(x, y, n - 1); }
  }

  lemma {:induction false} RankMono(x: nat, a: nat, b: nat)
    requires a <= b
    ensures Rank(x, a) <= Rank(x, b)
    decreases b
  {
    if a < b { RankMono(x, a, b - 1); }
  }
}
