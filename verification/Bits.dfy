/** Unsigned machine integers: ranges, bitwise and, and the masks of CIDR prefixes. */
module Bits {
  const TWO_32: nat := 0x1_0000_0000
  type Byte = n: nat | n < 0x100
  type U16 = n: nat | n < 0x1_0000
  type U32 = n: nat | n < 0x1_0000_0000

  /** The remainder a % u, by repeated subtraction: keeps division out of proofs that only pass it around. */
  function Mod(a: nat, u: nat): (r: nat)
    requires 0 < u
    ensures r < u
  {
    if a < u then a else Mod(a - u, u)
  }

  function Pow2(k: nat): (p: nat)
    ensures 0 < p
  {
    if k == 0 then 1 else 2 * Pow2(k - 1)
  }

  /** Bitwise and, one binary digit at a time. */
  function BitAnd(a: nat, b: nat): (r: nat)
    ensures r <= a && r <= b
  {
    if a == 0 || b == 0 then 0 else 2 * BitAnd(a / 2, b / 2) + (a % 2) * (b % 2)
  }

  /** Bitwise complement of a 32-bit value. */
  function Not32(a: U32): U32 {
    0xFFFF_FFFF - a
  }

  lemma {:induction false} Pow2Monotone(a: nat, b: nat)
    requires a <= b
    ensures Pow2(a) <= Pow2(b)
  {
    if a < b {
      Pow2Monotone(a, b - 1);
    }
  }

  lemma Pow2Of32()
    ensures Pow2(32) == TWO_32 && Pow2(31) == 0x8000_0000
  {
    assert Pow2(8) == 0x100;
    assert Pow2(16) == 0x1_0000;
    assert Pow2(24) == 0x100_0000;
    assert Pow2(31) == 0x8000_0000;
  }

  /** All ones below bit m keeps every value below 2^m. */
  lemma {:induction false} BitAndOnes(x: nat, m: nat)
    requires x < Pow2(m)
    ensures BitAnd(x, Pow2(m) - 1) == x
  {
    if x != 0 {
      assert (Pow2(m) - 1) / 2 == Pow2(m - 1) - 1;
      assert (Pow2(m) - 1) % 2 == 1;
      BitAndOnes(x / 2, m - 1);
    }
  }

  /** x with its low k bits cleared. */
  function RoundDown(x: nat, k: nat): int {
    x - x % Pow2(k)
  }

  lemma HalveRounded(x: nat, k: nat)
    requires 0 < k
    ensures RoundDown(x, k) == 2 * RoundDown(x / 2, k - 1)
  {
    var p := Pow2(k - 1);
    var q, r := x / 2 / p, x / 2 % p;
    assert x / 2 == q * p + r;
    assert x == q * (2 * p) + (2 * r + x % 2);
    QuotientIsUnique(x, 2 * p, q, 2 * r + x % 2);
  }

  lemma QuotientIsUnique(x: int, d: int, q: int, r: int)
    requires 0 <= r < d && x == q * d + r
    ensures x / d == q && x % d == r
  {
    var q', r' := x / d, x % d;
    var gap := q - q';
    assert gap * d == r' - r;
    assert gap >= 1 ==> gap * d >= d;
    assert gap <= -1 ==> gap * d <= -d;
  }

  /** Masking off the low k bits rounds down to a multiple of 2^k. */
  lemma {:induction false} BitAndHighMask(x: nat, k: nat, m: nat)
    requires x < Pow2(k + m)
    ensures Pow2(k) <= Pow2(k + m)
    ensures BitAnd(x, Pow2(k + m) - Pow2(k)) == RoundDown(x, k)
  {
    hide BitAnd, RoundDown;
    Pow2Monotone(k, k + m);
    if k == 0 {
      BitAndOnes(x, m);
      RoundToOne(x);
    } else {
      var half := Pow2(k - 1 + m) - Pow2(k - 1);
      BitAndHighMask(x / 2, k - 1, m);
      HalveRounded(x, k);
      BitAndEven(x, half);
    }
  }

  lemma RoundToOne(x: nat)
    ensures RoundDown(x, 0) == x
  {
    assert x % 1 == 0;
  }

  lemma BitAndEven(x: nat, b: nat)
    ensures BitAnd(x, 2 * b) == 2 * BitAnd(x / 2, b)
  {
    assert 2 * b / 2 == b && 2 * b % 2 == 0;
    if b != 0 && x != 0 {
      assert BitAnd(x, 2 * b) == 2 * BitAnd(x / 2, b) + x % 2 * 0;
    }
  }

  lemma {:induction false} Pow2Splits(a: nat, b: nat)
    ensures Pow2(a + b) == Pow2(b) * Pow2(a)
  {
    if b != 0 {
      Pow2Splits(a, b - 1);
      assert Pow2(a + b) == 2 * Pow2(a + (b - 1));
    }
  }

  /** The multiple of d below x: where it lies, and which x share it. */
  lemma RoundedDown(x: nat, d: nat)
    requires 0 < d
    ensures x - x % d == x / d * d && x % d < d
    ensures (x - x % d) % d == 0
  {
    QuotientIsUnique(x / d * d, d, x / d, 0);
  }

  lemma RoundsTo(x: nat, base: nat, d: nat)
    requires 0 < d && base % d == 0
    ensures x - x % d == base <==> base <= x < base + d
  {
    if base <= x < base + d {
      assert base == base / d * d;
      QuotientIsUnique(x, d, base / d, x - base);
    }
  }

  /** A block of d values starting at a multiple of d does not cross another multiple. */
  lemma BlockBelow(base: nat, d: nat, n: nat)
    requires 0 < d && base % d == 0 && base < n * d
    ensures base + d <= n * d
  {
    var q := base / d;
    assert base == q * d;
    assert q >= n ==> q * d >= n * d;
    assert q + 1 <= n ==> (q + 1) * d <= n * d;
  }

  lemma {:induction false} ModIsRemainder(a: nat, u: nat)
    requires 0 < u
    ensures Mod(a, u) == a % u
  {
    if a < u {
      QuotientIsUnique(a, u, 0, a);
    } else {
      ModIsRemainder(a - u, u);
      var q := (a - u) / u;
      assert (q + 1) * u == q * u + u;
      QuotientIsUnique(a, u, q + 1, (a - u) % u);
    }
  }

  lemma {:induction false} CongruentSteps(m: nat, n: nat, u: nat)
    requires 0 < u && m < n && Mod(n, u) == Mod(m, u)
    ensures u <= n - m
  {
    if u <= m {
      CongruentSteps(m - u, n - u, u);
    }
  }

  lemma {:induction false} SuccessorsCongruent(a: nat, b: nat, u: nat)
    requires 0 < u && Mod(a, u) == Mod(b, u)
    ensures Mod(a + 1, u) == Mod(b + 1, u)
    ensures Mod(Mod(a + 1, u), u) == Mod(a + 1, u)
    decreases a + b
  {
    if u <= a {
      SuccessorsCongruent(a - u, b, u);
    } else if u <= b {
      SuccessorsCongruent(a, b - u, u);
    }
  }
}
