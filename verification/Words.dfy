/**
 Fixed-width unsigned words, modelled as naturals below a power of two.

 Shifts are multiplication and division by powers of two, truncation is a remainder,
 and the bitwise operators are defined bit by bit, so that the places where the C code
 uses `|` as an addition or `&` as a remainder have to be justified.
 */
module Words {

  function Pow2(k: nat): (p: nat)
    ensures p >= 1
  {
    if k == 0 then 1 else 2 * Pow2(k - 1)
  }

  /** The value of `x` reduced to an `n`-bit word. */
  function Wrap(n: nat, x: int): (w: nat)
    ensures w < Pow2(n)
    ensures 0 <= x < Pow2(n) ==> w == x
  {
    Residue(x, Pow2(n));
    x % Pow2(n)
  }

  /** Reduction to a 32-bit word. */
  function U32(x: int): (w: nat)
    ensures w < 0x1_0000_0000
    ensures 0 <= x < 0x1_0000_0000 ==> w == x
    ensures -0x1_0000_0000 <= x < 0 ==> w == x + 0x1_0000_0000
  {
    x % 0x1_0000_0000
  }

  /** A term may be reduced before or after the sum. */
  lemma Congruent(x: int, d: int)
    ensures U32(U32(x) + d) == U32(x + d)
  {
  }

  /** Reduction to a 64-bit word. */
  function U64(x: int): (w: nat)
    ensures w < 0x1_0000_0000_0000_0000
    ensures 0 <= x < 0x1_0000_0000_0000_0000 ==> w == x
  {
    x % 0x1_0000_0000_0000_0000
  }

  /** Reduction to a 128-bit word. */
  function U128(x: int): (w: nat)
    ensures w < 0x1_0000_0000_0000_0000_0000_0000_0000_0000
    ensures 0 <= x < 0x1_0000_0000_0000_0000_0000_0000_0000_0000 ==> w == x
  {
    x % 0x1_0000_0000_0000_0000_0000_0000_0000_0000
  }

  function Shr(x: nat, k: nat): (r: nat)
    ensures r <= x
  {
    DivBounds(x, Pow2(k));
    x / Pow2(k)
  }

  function Shl(n: nat, x: nat, k: nat): (r: nat)
    ensures r < Pow2(n)
  {
    Wrap(n, x * Pow2(k))
  }

  function And(x: nat, y: nat): (r: nat)
    ensures r <= x && r <= y
  {
    if x == 0 || y == 0 then 0 else
      (if x % 2 == 1 && y % 2 == 1 then 1 else 0) + 2 * And(x / 2, y / 2)
  }

  function Or(x: nat, y: nat): (r: nat)
  {
    if x == 0 then y else if y == 0 then x else
      (if x % 2 == 1 || y % 2 == 1 then 1 else 0) + 2 * Or(x / 2, y / 2)
  }

  /** Number of leading zero bits of `x` in an `n`-bit word; `n` when `x` is zero. */
  function Clz(n: nat, x: nat): (k: nat)
    requires x < Pow2(n)
    ensures k <= n
  {
    if n == 0 || x >= Pow2(n - 1) then 0 else 1 + Clz(n - 1, x)
  }

  /** Number of trailing zero bits of a non-zero word. */
  function Ctz(x: nat): (k: nat)
    requires x > 0
  {
    if x % 2 == 1 then 0 else 1 + Ctz(x / 2)
  }

  // ----- arithmetic

  lemma Euclid(x: int, d: int)
    requires d > 0
    ensures x == x / d * d + x % d && 0 <= x % d < d
  {
  }

  lemma MulLe(a: int, x: int, y: int)
    requires 0 <= a && x <= y
    ensures a * x <= a * y
  {
  }

  lemma MulNat(x: nat, y: nat)
    ensures 0 <= x * y
  {
  }

  lemma DivBounds(x: nat, d: nat)
    requires d > 0
    ensures 0 <= x / d <= x
  {
    Euclid(x, d);
    var q := x / d;
    if q > x { MulLe(q, 1, d); assert false; }
    if q < 0 { MulLe(d, q, -1); assert false; }
  }

  /** The quotient and remainder of a division are the only pair that satisfies its equation. */
  lemma DivModUnique(x: int, d: int, q: int, r: int)
    requires d > 0 && 0 <= r < d
    requires x == q * d + r
    ensures x / d == q && x % d == r
  {
    Euclid(x, d);
    var e := x / d - q;
    assert e * d == r - x % d by { assert x / d * d - q * d == e * d; }
    if e >= 1 { MulLe(d, 1, e); assert false; }
    if e <= -1 { MulLe(d, e, -1); assert false; }
  }

  lemma Residue(x: int, d: int)
    requires d > 0
    ensures 0 <= x % d < d
    ensures 0 <= x < d ==> x % d == x
  {
    if 0 <= x < d { DivModUnique(x, d, 0, x); }
  }

  lemma WrapUnique(n: nat, x: int, q: int, w: int)
    requires 0 <= w < Pow2(n)
    requires x == q * Pow2(n) + w
    ensures Wrap(n, x) == w
  {
    DivModUnique(x, Pow2(n), q, w);
  }

  // ----- powers of two

  lemma TwoTimes(x: nat, y: nat)
    ensures (2 * x) * y == 2 * (x * y)
  {
  }

  lemma {:induction false} Pow2Add(a: nat, b: nat)
    ensures Pow2(a + b) == Pow2(a) * Pow2(b)
  {
    if a == 0 {
    } else {
      Pow2Add(a - 1, b);
      TwoTimes(Pow2(a - 1), Pow2(b));
    }
  }

  lemma Pow2Mono(a: nat, b: nat)
    requires a <= b
    ensures Pow2(a) <= Pow2(b)
  {
    if a < b { Pow2Mono(a, b - 1); }
  }

  lemma Pow2Values()
    ensures Pow2(16) == 0x1_0000 && Pow2(31) == 0x8000_0000 && Pow2(32) == 0x1_0000_0000
    ensures Pow2(63) == 0x8000_0000_0000_0000 && Pow2(64) == 0x1_0000_0000_0000_0000
  {
    assert Pow2(8) == 0x100;
    Pow2Add(8, 8);
    Pow2Add(16, 16);
    Pow2Add(32, 32);
  }

  lemma ScaleTwice(x: nat, k: nat)
    requires k >= 1
    ensures x * Pow2(k) == 2 * (x * Pow2(k - 1))
  {
  }

  // ----- bitwise operators

  /** Halving a number that splits at bit `k >= 1` halves its upper part. */
  lemma HalveSplit(h: nat, k: nat, y: nat)
    requires k >= 1
    ensures (h * Pow2(k) + y) % 2 == y % 2
    ensures (h * Pow2(k) + y) / 2 == h * Pow2(k - 1) + y / 2
  {
    ScaleTwice(h, k);
    Double(h * Pow2(k - 1), y);
  }

  lemma Double(x: int, y: int)
    ensures (2 * x + y) % 2 == y % 2 && (2 * x + y) / 2 == x + y / 2
  {
  }

  /** `|` of two words whose bits do not meet is their sum. */
  lemma {:induction false} OrDisjoint(h: nat, k: nat, y: nat)
    requires y < Pow2(k)
    ensures Or(h * Pow2(k), y) == h * Pow2(k) + y
    ensures Or(y, h * Pow2(k)) == h * Pow2(k) + y
  {
    if k == 0 || y == 0 {
    } else {
      HalveSplit(h, k, 0);
      HalveSplit(h, k, y);
      OrDisjoint(h, k - 1, y / 2);
    }
  }

  /** `&` with a mask of `k` ones is the remainder modulo `2^k`. */
  lemma {:induction false} AndLowMask(h: nat, k: nat, y: nat)
    requires y < Pow2(k)
    ensures And(h * Pow2(k) + y, Pow2(k) - 1) == y
  {
    if k == 0 {
    } else {
      HalveSplit(h, k, y);
      AndLowMask(h, k - 1, y / 2);
      assert (Pow2(k) - 1) / 2 == Pow2(k - 1) - 1 && (Pow2(k) - 1) % 2 == 1;
    }
  }

  lemma AndMask(x: nat, k: nat)
    ensures And(x, Pow2(k) - 1) == x % Pow2(k)
  {
    Euclid(x, Pow2(k));
    DivBounds(x, Pow2(k));
    AndLowMask(x / Pow2(k), k, x % Pow2(k));
  }

  lemma AndHighAll(n: nat, x: nat)
    requires x < Pow2(n)
    ensures And(x, Pow2(n) - Pow2(0)) == x
  {
    AndMask(x, n);
    Residue(x, Pow2(n));
  }

  lemma NoHighPart(h: nat, p: nat, y: nat)
    requires h * p + y < p
    ensures h == 0 && h * p == 0
  {
    if h >= 1 { MulLe(p, 1, h); }
  }

  ghost predicate Splits(x: nat, h: nat, k: nat, y: nat) {
    x == h * Pow2(k) + y && y < Pow2(k)
  }

  lemma HalveSplits(n: nat, x: nat, h: nat, k: nat, y: nat)
    requires 1 <= k <= n && x < Pow2(n) && Splits(x, h, k, y)
    ensures x / 2 < Pow2(n - 1) && Splits(x / 2, h, k - 1, y / 2) && x % 2 == y % 2
  {
    HalveBelow(x, n);
    HalveBelow(y, k);
    hide Pow2;
    HalveSplit(h, k, y);
  }

  /** `&` with the complement of a `k`-bit mask clears the low `k` bits of an `n`-bit word. */
  lemma {:induction false} AndHighSplit(n: nat, h: nat, k: nat, y: nat, x: nat)
    requires k <= n && Splits(x, h, k, y) && x < Pow2(n)
    ensures Pow2(k) <= Pow2(n)
    ensures And(x, Pow2(n) - Pow2(k)) == x - y
  {
    hide Pow2, And, Splits;
    Pow2Mono(k, n);
    if k == 0 || n == k || x == 0 {
      AndHighBase(n, h, k, y, x);
    } else {
      HalveSplits(n, x, h, k, y);
      AndHighSplit(n - 1, h, k - 1, y / 2, x / 2);
      HalveMask(n, k);
      AndEven(x, y, Pow2(n) - Pow2(k));
    }
  }

  lemma AndHighBase(n: nat, h: nat, k: nat, y: nat, x: nat)
    requires k <= n && Splits(x, h, k, y) && x < Pow2(n) && (k == 0 || n == k || x == 0) && Pow2(k) <= Pow2(n)
    ensures And(x, Pow2(n) - Pow2(k)) == x - y
  {
    assert Pow2(0) == 1;
    hide Pow2, And;
    if k == 0 {
      AndHighAll(n, x);
    } else if n == k {
      NoHighPart(h, Pow2(k), y);
      AndZero(x);
    } else {
      MulNat(h, Pow2(k));
      AndZero(Pow2(n) - Pow2(k));
    }
  }

  lemma AndZero(x: nat)
    ensures And(x, 0) == 0 && And(0, x) == 0
  {
  }

  lemma HalveBelow(x: nat, n: nat)
    requires n >= 1 && x < Pow2(n)
    ensures x / 2 < Pow2(n - 1)
  {
  }

  lemma AndEven(x: nat, y: nat, m: nat)
    requires m > 0 && m % 2 == 0 && x > 0 && x % 2 == y % 2
    requires And(x / 2, m / 2) == x / 2 - y / 2
    ensures And(x, m) == x - y
  {
  }

  lemma HalveMask(n: nat, k: nat)
    requires 1 <= k < n
    ensures Pow2(k) < Pow2(n)
    ensures (Pow2(n) - Pow2(k)) % 2 == 0 && (Pow2(n) - Pow2(k)) / 2 == Pow2(n - 1) - Pow2(k - 1)
  {
    Pow2Mono(k, n - 1);
    Double(Pow2(n - 1) - Pow2(k - 1), 0);
  }

  lemma AndHighMask(n: nat, x: nat, k: nat)
    requires k <= n && x < Pow2(n)
    ensures Pow2(k) <= Pow2(n)
    ensures And(x, Pow2(n) - Pow2(k)) == x - x % Pow2(k)
  {
    Euclid(x, Pow2(k));
    DivBounds(x, Pow2(k));
    AndHighSplit(n, x / Pow2(k), k, x % Pow2(k), x);
  }

  // ----- leading and trailing zeros

  lemma {:induction false} ClzRange(n: nat, x: nat)
    requires 0 < x < Pow2(n)
    ensures Clz(n, x) < n
    ensures Pow2(n - 1 - Clz(n, x)) <= x < Pow2(n - Clz(n, x))
  {
    if x < Pow2(n - 1) { ClzRange(n - 1, x); }
  }

  /** Shifting a non-zero word left by its leading zeros sets the top bit and loses nothing. */
  lemma {:induction false} ClzNormalizes(n: nat, x: nat)
    requires 0 < x < Pow2(n)
    ensures Pow2(n - 1) <= x * Pow2(Clz(n, x)) < Pow2(n)
  {
    if x < Pow2(n - 1) {
      ClzNormalizes(n - 1, x);
      ScaleTwice(x, Clz(n, x));
    }
  }

  lemma {:induction false} ClzMonotone(n: nat, x: nat, y: nat)
    requires x <= y < Pow2(n)
    ensures Clz(n, y) <= Clz(n, x)
  {
    if n > 0 && y < Pow2(n - 1) { ClzMonotone(n - 1, x, y); }
  }

  /** `x & (x - 1)` is zero exactly for the powers of two. */
  lemma {:induction false} PowerOfTwoTest(x: nat)
    requires x > 0
    ensures And(x, x - 1) == 0 <==> x == Pow2(Ctz(x))
  {
    if x % 2 == 1 {
      if x > 1 {
        AndSelf(x / 2);
        assert (x - 1) / 2 == x / 2;
      }
    } else {
      PowerOfTwoTest(x / 2);
      assert (x - 1) / 2 == x / 2 - 1 && (x - 1) % 2 == 1;
    }
  }

  lemma {:induction false} AndSelf(x: nat)
    ensures And(x, x) == x
  {
    if x == 0 {
    } else {
      AndSelf(x / 2);
    }
  }
}
