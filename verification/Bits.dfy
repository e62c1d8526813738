/** Unsigned machine words and the bit operations the log's verifiers use.

    A word is an integer below 2^64.  Shifts require an amount below 64, as the
    hardware does, so a body that verifies never shifts by the whole width. */
module Bits {

  type U64 = x: int | 0 <= x < 0x1_0000_0000_0000_0000

  const BITS: nat := 64

  function Pow2(e: nat): (p: nat)
    ensures p > 0
  {
    if e == 0 then 1 else 2 * Pow2(e - 1)
  }

  /** How many binary digits `n` has. */
  function BitLen(n: nat): nat {
    if n == 0 then 0 else 1 + BitLen(n / 2)
  }

  function Xor(a: nat, b: nat): nat
    decreases a + b
  {
    if a == 0 && b == 0 then 0
    else (if a % 2 == b % 2 then 0 else 1) + 2 * Xor(a / 2, b / 2)
  }

  function CountOnes(n: nat): nat {
    if n == 0 then 0 else n % 2 + CountOnes(n / 2)
  }

  function TrailingZeros(n: nat): nat
    requires n > 0
  {
    if n % 2 == 1 then 0 else 1 + TrailingZeros(n / 2)
  }

  /** `x` with its `s` low digits dropped. */
  function Drop(x: nat, s: nat): (r: nat)
    ensures r <= x
    decreases s
  {
    if s == 0 then x else Drop(x / 2, s - 1)
  }

  /** `x.leading_zeros()`. */
  function LeadingZeros(x: U64): (z: nat)
    ensures z <= BITS
  {
    WordWidth(x);
    BITS - BitLen(x)
  }

  /** `1 << s`. */
  function OneShl(s: nat): (r: U64)
    requires s < BITS
    ensures r == Pow2(s)
  {
    Pow2Mono(s, 63);
    Pow2At64();
    Pow2(s)
  }

  /** `x >> s`. */
  function Shr(x: U64, s: nat): (r: U64)
    requires s < BITS
  {
    Drop(x, s)
  }

  /** `x.checked_shr(s).unwrap_or(0)`: the whole word is dropped, not an error. */
  function CheckedShr(x: U64, s: nat): (r: U64)
    ensures r == Drop(x, s)
  {
    if s < BITS then Shr(x, s)
    else
      Pow2At64();
      Pow2Mono(64, s);
      DropSmall(x, s);
      0
  }

  // ---------------------------------------------------------------- powers

  lemma {:induction false} Pow2At64()
    ensures Pow2(63) == 0x8000_0000_0000_0000
    ensures Pow2(64) == 0x1_0000_0000_0000_0000
  {
    assert Pow2(4) == 16;
    Pow2Add(4, 4);
    Pow2Add(8, 8);
    Pow2Add(16, 16);
    Pow2Add(32, 32);
    assert Pow2(64) == 2 * Pow2(63);
  }

  lemma {:induction false} Pow2Mono(a: nat, b: nat)
    requires a <= b
    ensures Pow2(a) <= Pow2(b)
    decreases b
  {
    if a < b {
      Pow2Mono(a, b - 1);
    }
  }

  lemma {:induction false} Pow2Add(a: nat, b: nat)
    ensures Pow2(a + b) == Pow2(a) * Pow2(b)
  {
    if a > 0 {
      Pow2Add(a - 1, b);
    }
  }

  // ---------------------------------------------------------------- length

  lemma {:induction false} BitLenBounds(n: nat)
    ensures n < Pow2(BitLen(n))
    ensures n > 0 ==> BitLen(n) > 0 && Pow2(BitLen(n) - 1) <= n
  {
    if n > 0 {
      BitLenBounds(n / 2);
    }
  }

  lemma {:induction false} BitLenFits(n: nat, b: nat)
    requires n < Pow2(b)
    ensures BitLen(n) <= b
    decreases b
  {
    if n > 0 {
      BitLenFits(n / 2, b - 1);
    }
  }

  lemma {:induction false} BitLenExact(n: nat, b: nat)
    requires Pow2(b) <= n < 2 * Pow2(b)
    ensures BitLen(n) == b + 1
    decreases b
  {
    if b > 0 {
      BitLenExact(n / 2, b - 1);
    }
  }

  /** A word has at most 64 digits. */
  lemma {:induction false} WordWidth(x: U64)
    ensures BitLen(x) <= BITS
  {
    Pow2At64();
    BitLenFits(x, 64);
  }

  // ------------------------------------- the top bit of a word, bit by bit

  lemma {:induction false} HalveTop(a: nat, t: nat)
    requires t > 0
    ensures (a + Pow2(t)) / 2 == a / 2 + Pow2(t - 1)
    ensures (a + Pow2(t)) % 2 == a % 2
  {
  }

  lemma {:induction false} XorFits(a: nat, b: nat, t: nat)
    requires a < Pow2(t) && b < Pow2(t)
    ensures Xor(a, b) < Pow2(t)
  {
    if t > 0 && a + b > 0 {
      XorFits(a / 2, b / 2, t - 1);
    }
  }

  /** Adding one top bit to both sides leaves their difference alone. */
  lemma {:induction false} XorTopBoth(a: nat, b: nat, t: nat)
    requires a < Pow2(t) && b < Pow2(t)
    ensures Xor(a + Pow2(t), b + Pow2(t)) == Xor(a, b)
    decreases t
  {
    if t > 0 {
      XorTopBoth(a / 2, b / 2, t - 1);
      HalveTop(a, t);
      HalveTop(b, t);
    } else {
      assert Xor(1, 1) == 0;
    }
  }

  /** Adding it to one side only sets it in the difference. */
  lemma {:induction false} XorTopOne(a: nat, b: nat, t: nat)
    requires a < Pow2(t) && b < Pow2(t)
    ensures Xor(a, b + Pow2(t)) == Xor(a, b) + Pow2(t)
    decreases t
  {
    if t > 0 {
      XorTopOne(a / 2, b / 2, t - 1);
      HalveTop(b, t);
    } else {
      assert Xor(0, 1) == 1;
    }
  }

  lemma {:induction false} DropTop(a: nat, t: nat, s: nat)
    requires s <= t
    ensures Drop(a + Pow2(t), s) == Drop(a, s) + Pow2(t - s)
    decreases s
  {
    if s > 0 {
      HalveTop(a, t);
      DropTop(a / 2, t - 1, s - 1);
    }
  }

  lemma {:induction false} DropSmall(a: nat, s: nat)
    requires a < Pow2(s)
    ensures Drop(a, s) == 0
    decreases s
  {
    if s > 0 {
      DropSmall(a / 2, s - 1);
    }
  }

  lemma {:induction false} DropFits(a: nat, t: nat, s: nat)
    requires s <= t && a < Pow2(t)
    ensures Drop(a, s) < Pow2(t - s)
    decreases s
  {
    if s > 0 {
      DropFits(a / 2, t - 1, s - 1);
    }
  }

  lemma {:induction false} CountOnesTop(a: nat, t: nat)
    requires a < Pow2(t)
    ensures CountOnes(a + Pow2(t)) == CountOnes(a) + 1
  {
    if t > 0 {
      HalveTop(a, t);
      CountOnesTop(a / 2, t - 1);
    }
  }

  lemma {:induction false} TrailingZerosTop(a: nat, t: nat)
    requires 0 < a < Pow2(t)
    ensures TrailingZeros(a + Pow2(t)) == TrailingZeros(a) < t
  {
    HalveTop(a, t);
    if a % 2 == 0 {
      TrailingZerosTop(a / 2, t - 1);
    }
  }

  lemma {:induction false} TrailingZerosPow2(t: nat)
    ensures TrailingZeros(Pow2(t)) == t
  {
    if t > 0 {
      TrailingZerosPow2(t - 1);
    }
  }

  // ---------------------------------------------------------------- quotients

  lemma {:induction false} MulAtLeast(b: nat, q: int)
    requires b > 0 && b * q + b > 0
    ensures q >= 0 && b * q >= q
  {
  }

  lemma {:induction false} QuotientIs(x: nat, d: nat, q: nat, r: nat)
    requires d > 0 && r < d && x == d * q + r
    ensures x / d == q && x % d == r
  {
    assert x == d * (x / d) + x % d;
    assert d * (q - x / d) == x % d - r;
    MulAtLeast(d, q - x / d);
    MulAtLeast(d, x / d - q);
  }

  lemma {:induction false} NextQuotient(n: nat, d: nat)
    requires d > 0
    ensures if n % d == d - 1 then (n + 1) / d == n / d + 1 && (n + 1) % d == 0
            else (n + 1) / d == n / d && (n + 1) % d == n % d + 1
  {
    assert n == d * (n / d) + n % d;
    if n % d == d - 1 {
      assert d * (n / d + 1) == d * (n / d) + d;
      QuotientIs(n + 1, d, n / d + 1, 0);
    } else {
      QuotientIs(n + 1, d, n / d, n % d + 1);
    }
  }
}
