/**
 The wide unsigned divisions of cc-runtime: Knuth's Algorithm D for 128 by 64 bits and the
 branch-free shift-subtract loops for 64 and 128 bits.
 */
module Division {
  import opened Words

  const B: nat := 0x1_0000_0000
  const W: nat := 0x1_0000_0000_0000_0000

  /** A 64-bit product. The precondition is that the C expression does not overflow. */
  function Mul64(x: nat, y: nat): (p: nat)
    requires x * y < W
    ensures p == x * y
  {
    x * y
  }

  // ----- Algorithm D

  /** `q` estimates the digit of `u:un` over `v` from above; `rhat` is what `q * (v / B)` leaves of `u`. */
  ghost predicate Estimate(u: nat, un: nat, v: nat, q: nat, rhat: nat) {
    && u == q * (v / B) + rhat
    && u * B + un < q * v + v
  }

  /** The loop test compares the two sides of the exact digit condition. */
  lemma EstimateError(u: nat, un: nat, v: nat, vn1: nat, vn0: nat, q: nat, rhat: nat)
    requires v == vn1 * B + vn0 && u == q * vn1 + rhat
    ensures u * B + un - q * v == rhat * B + un - q * vn0
  {
    assert q * v == q * vn1 * B + q * vn0;
  }

  lemma InitialEstimate(u: nat, un: nat, v: nat, q: nat, rhat: nat)
    requires un < B && W / 2 <= v < W && u < v
    requires u == q * (v / B) + rhat && rhat < v / B
    ensures q <= B + 1
    ensures Estimate(u, un, v, q, rhat)
  {
    if q >= B + 2 {
      MulLe(v / B, B + 2, q);
      assert false;
    }
    EstimateError(u, un, v, v / B, v % B, q, rhat);
    MulNat(q, v % B);
  }

  /** An estimate that fails the test is too large, so its predecessor is still an estimate. */
  lemma CorrectEstimate(u: nat, un: nat, v: nat, q: nat, rhat: nat)
    requires u < v && un < B
    requires Estimate(u, un, v, q, rhat)
    requires q >= B || q * (v % B) > B * rhat + un
    ensures q >= 1 && Estimate(u, un, v, q - 1, rhat + v / B)
  {
    EstimateError(u, un, v, v / B, v % B, q, rhat);
    if q >= B { MulLe(v, B, q); }
    NextMultiple(q - 1, v);
    NextMultiple(q - 1, v / B);
  }

  /** An estimate that leaves the loop is the true digit. */
  lemma ExactEstimate(u: nat, un: nat, v: nat, q: nat, rhat: nat)
    requires u < v && un < B
    requires Estimate(u, un, v, q, rhat)
    requires (q <= B && rhat >= B) || (q < B && q * (v % B) <= B * rhat + un)
    ensures q < B && q * v <= u * B + un
  {
    EstimateError(u, un, v, v / B, v % B, q, rhat);
    if q <= B && rhat >= B { MulLe(v % B, q, B); }
  }

  lemma NoOverflow(q: nat, vn0: nat)
    requires q < B && vn0 < B
    ensures q * vn0 < W
  {
    MulLe(vn0, q, B);
  }

  lemma NextMultiple(q: int, v: int)
    ensures (q + 1) * v == q * v + v
  {
  }

  /**
   One digit of Algorithm D. `u` holds the two leading digits of the dividend and `un` the next
   one; the divisor's top bit is set. The estimate `u / vn1` is corrected at most twice, no
   product in the loop test overflows, and the result is the true digit.
   */
  method QuotientDigit(u: nat, un: nat, v: nat) returns (q: nat, corrections: nat)
    requires un < B && W / 2 <= v < W && u < v
    ensures q < B && corrections <= 2
    ensures q * v <= u * B + un < q * v + v
  {
    var vn1, vn0 := v / B, v % B;
    Euclid(u, vn1);
    DivBounds(u, vn1);
    q := u / vn1;
    var rhat := u - q * vn1;
    corrections := 0;
    InitialEstimate(u, un, v, q, rhat);
    if q < B { NoOverflow(q, vn0); }
    while q >= B || Mul64(q, vn0) > Mul64(B, rhat) + un
      invariant Estimate(u, un, v, q, rhat)
      invariant corrections <= 1 && q + corrections <= B + 1
      invariant corrections * (B / 2) <= rhat < B
      invariant q < B ==> q * vn0 < W
      decreases B - rhat
    {
      CorrectEstimate(u, un, v, q, rhat);
      q := q - 1;
      rhat := rhat + vn1;
      corrections := corrections + 1;
      if rhat >= B { break; }
      if q < B { NoOverflow(q, vn0); }
    }
    ExactEstimate(u, un, v, q, rhat);
  }

  /** The two digits of the quotient, put together. */
  lemma TwoDigits(un64: nat, un1: nat, un0: nat, v: nat, q1: nat, un21: nat, q0: nat, rest: nat)
    requires un21 == un64 * B + un1 - q1 * v
    requires rest == un21 * B + un0 - q0 * v
    ensures un64 * W + (un1 * B + un0) == (q1 * B + q0) * v + rest
  {
    assert (q1 * B + q0) * v == q1 * v * B + q0 * v;
  }

  /** Undoing the normalisation: a common factor of dividend and divisor divides the remainder. */
  lemma Denormalize(u: nat, v: nat, p: nat, q: nat, rest: nat, un: nat, vn: nat)
    requires p > 0 && un == u * p && vn == v * p
    requires un == q * vn + rest && rest < vn
    ensures u == q * v + rest / p && 0 <= rest / p < v
  {
    var r := u - q * v;
    FactorOut(u, v, p, q, rest);
    if r < 0 { MulLe(p, r, -1); assert false; }
    if r >= v { MulLe(p, v, r); assert false; }
    DivModUnique(rest, p, r, 0);
  }

  lemma FactorOut(u: nat, v: nat, p: nat, q: nat, rest: nat)
    requires u * p == q * (v * p) + rest
    ensures (u - q * v) * p == rest
  {
  }

  lemma Residue64(x: int, hi: int, lo: nat)
    requires lo < W && x == hi * W + lo
    ensures U64(x) == lo
  {
  }

  /** Splitting a word at a bit position and scaling it moves the upper part one word up. */
  lemma ScaledSplit(u0: nat, t: nat, p: nat, hi: nat, lo: nat)
    requires t * p == W && u0 == hi * t + lo && lo < t
    ensures u0 * p == hi * W + lo * p
  {
    assert (hi * t + lo) * p == hi * (t * p) + lo * p;
  }

  lemma LowPart(t: nat, p: nat, lo: nat)
    requires t * p == W && lo < t
    ensures 0 <= lo * p < W
  {
    if p == 0 { assert false; }
    MulLe(p, lo + 1, t);
  }

  lemma HighPart(u0: nat, t: nat, p: nat, hi: nat, lo: nat)
    requires t * p == W && u0 == hi * t + lo && u0 < W
    ensures hi < p
  {
    if hi >= p { MulLe(t, p, hi); assert false; }
  }

  lemma ScaledBound(u1: nat, v: nat, p: nat)
    requires u1 < v
    ensures u1 * p + p <= v * p
  {
    MulLe(p, u1 + 1, v);
  }

  lemma ScaledSum(u1: nat, u0: nat, p: nat, x: nat, y: nat)
    requires x == u1 * p && y == u0 * p
    ensures (u1 * W + u0) * p == x * W + y
  {
  }

  /** The bits a left shift pushes out of a word are those the complementary right shift keeps. */
  lemma ShiftedOut(u0: nat, t: nat, p: nat, hi: nat, lo: nat)
    requires t * p == W && u0 == hi * t + lo && lo < t && u0 < W
    ensures hi < p && u0 * p == hi * W + U64(u0 * p)
  {
    HighPart(u0, t, p, hi, lo);
    ScaledSplit(u0, t, p, hi, lo);
    LowPart(t, p, lo);
    Residue64(u0 * p, hi, lo * p);
  }

  lemma SplitWord(u0: nat, s: nat) returns (t: nat, lo: nat)
    requires u0 < W && s <= 64
    ensures t * Pow2(s) == W && u0 == Shr(u0, 64 - s) * t + lo && lo < t
  {
    Pow2Values();
    Pow2Add(64 - s, s);
    t := Pow2(64 - s);
    lo := u0 % t;
    Euclid(u0, t);
  }

  /** The normalised dividend: shifting the double word `u1:u0` left by `s` loses no bit. */
  lemma NormalizedDividend(u1: nat, u0: nat, v: nat, s: nat, hi: nat)
    requires u1 < v && u0 < W && v * Pow2(s) < W && s <= 64
    requires hi == Shr(u0, 64 - s)
    ensures Or(U64(u1 * Pow2(s)), hi) < v * Pow2(s)
    ensures Or(U64(u1 * Pow2(s)), hi) * W + U64(u0 * Pow2(s)) == (u1 * W + u0) * Pow2(s)
  {
    var t, lo := SplitWord(u0, s);
    var p := Pow2(s);
    ShiftedOut(u0, t, p, hi, lo);
    ScaledBound(u1, v, p);
    MulNat(u1, p);
    MulNat(u0, p);
    var x, y := u1 * p, u0 * p;
    Residue64(x, 0, x);
    OrDisjoint(u1, s, hi);
    ScaledSum(u1, u0, p, x, y);
  }

  /** Both digits, for a divisor with its top bit set; `un21` and the rest wrap modulo 2^64. */
  method DivideNormalized(un64: nat, un10: nat, v: nat) returns (q: nat, rest: nat)
    requires W / 2 <= v < W && un64 < v && un10 < W
    ensures q < W && rest < v
    ensures un64 * W + un10 == q * v + rest
  {
    var un1, un0 := un10 / B, un10 % B;
    var q1, _ := QuotientDigit(un64, un1, v);
    var un21 := U64(un64 * B + un1 - q1 * v);
    var q0, _ := QuotientDigit(un21, un0, v);
    rest := U64(un21 * B + un0 - q0 * v);
    q := q1 * B + q0;
    TwoDigits(un64, un1, un0, v, q1, un21, q0, rest);
  }

  /** Shift dividend and divisor left until the divisor's top bit is set. */
  method Normalize(u1: nat, u0: nat, v: nat) returns (s: nat, vn: nat, un64: nat, un10: nat)
    requires u1 < v < W && u0 < W
    ensures W / 2 <= vn < W && un64 < vn && un10 < W
    ensures vn == v * Pow2(s)
    ensures un64 * W + un10 == (u1 * W + u0) * Pow2(s)
  {
    ClzBounds(v);
    s := Clz(64, v);
    vn, un64, un10 := v, u1, u0;
    if s > 0 {
      NormalizedDividend(u1, u0, v, s, Shr(u0, 64 - s));
      var scaled := v * Pow2(s);
      vn := U64(scaled);
      un64 := Or(U64(u1 * Pow2(s)), Shr(u0, 64 - s));
      un10 := U64(u0 * Pow2(s));
    }
  }

  /** Division of the double word `u1:u0` by `v` for a quotient that fits one word. */
  method Udiv128By64To64(u1: nat, u0: nat, v: nat) returns (q: nat, r: nat)
    requires u1 < v < W && u0 < W
    ensures q < W && r < v
    ensures u1 * W + u0 == q * v + r
  {
    var s, vn, un64, un10 := Normalize(u1, u0, v);
    var rest;
    q, rest := DivideNormalized(un64, un10, vn);
    Denormalize(u1 * W + u0, v, Pow2(s), q, rest, un64 * W + un10, vn);
    r := Shr(rest, s);
  }

  lemma ClzBounds(v: nat)
    requires 0 < v < W
    ensures v < Pow2(64) && Clz(64, v) < 64
    ensures W / 2 <= v * Pow2(Clz(64, v)) < W
  {
    Pow2Values();
    ClzRange(64, v);
    ClzNormalizes(64, v);
  }

  // ----- the branch-free comparison

  /** An arithmetic shift right by `n - 1`: all ones for a word with its sign bit set, else zero. */
  function SignMask(n: nat, x: nat): (m: nat)
    requires n >= 1
  {
    if x >= Pow2(n - 1) then Pow2(n) - 1 else 0
  }

  /** The mask of `d - r - 1` that the loops use in place of a comparison. */
  function CompareMask(n: nat, d: nat, r: nat): (m: nat)
    requires n >= 1
  {
    SignMask(n, Wrap(n, d - r - 1))
  }

  lemma WrapDifference(n: nat, d: nat, r: nat)
    requires n >= 1 && d < Pow2(n) && r < Pow2(n)
    ensures Wrap(n, d - r - 1) == if r < d then d - r - 1 else Pow2(n) + d - r - 1
  {
    if r >= d { WrapUnique(n, d - r - 1, -1, Pow2(n) + d - r - 1); }
  }

  /**
   The sign bit stands for `r >= d` exactly while the two operands are less than half the word
   range apart: `r` at most `d + 2^(n-1) - 1` and at least `d - 2^(n-1)`.
   */
  lemma CompareMaskSound(n: nat, d: nat, r: nat)
    requires n >= 1 && d < Pow2(n) && r < Pow2(n)
    ensures CompareMask(n, d, r) == (if r >= d then Pow2(n) - 1 else 0)
            <==> r - d < Pow2(n - 1) && d - r <= Pow2(n - 1)
  {
    WrapDifference(n, d, r);
  }

  /** Selecting with the mask: the whole word, or nothing. */
  lemma MaskSelects(n: nat, d: nat)
    requires d < Pow2(n)
    ensures And(d, Pow2(n) - 1) == d && And(d, 0) == 0
  {
    AndMask(d, n);
    Residue(d, Pow2(n));
  }

  /** One branch-free step: subtract `d` from `r` when it fits, and report the quotient bit. */
  method ConditionalSubtract(n: nat, d: nat, r: nat) returns (r': nat, bit: nat)
    requires n >= 1 && d < Pow2(n) && r < Pow2(n)
    requires r < 2 * d && d - r <= Pow2(n - 1)
    ensures if r >= d then r' == r - d && bit == 1 else r' == r && bit == 0
    ensures r' < d
  {
    var s := CompareMask(n, d, r);
    CompareMaskSound(n, d, r);
    MaskSelects(n, d);
    Double(Pow2(n - 1) - 1, 1);
    bit := s % 2;
    r' := Wrap(n, r - And(d, s));
  }

  // ----- the shift-subtract loop

  /**
   The loop's registers, with `sr` steps to go: of the dividend, `hi` has been consumed and
   equals `quot * d + r`, while `lo` waits at the top of `q` above the quotient bits found so
   far (the last one still in `carry`).
   */
  ghost predicate Registers(n: nat, d: nat, sr: nat, hi: nat, lo: nat, quot: nat,
                            r: nat, q: nat, carry: nat)
  {
    && sr <= n
    && lo < Pow2(sr)
    && hi == quot * d + r && r < d
    && q == lo * Pow2(n - sr) + quot / 2 && quot / 2 < Pow2(n - sr)
    && carry == quot % 2
  }

  lemma DistributeBit(top: nat, p: nat, t: nat, lo: nat)
    ensures (top * p + lo) * t == top * (p * t) + lo * t
  {
  }

  /** The next dividend bit is the top bit of `q`. */
  lemma TopBit(n: nat, sr: nat, lo: nat, low: nat, q: nat) returns (top: nat, lo': nat, rest: nat)
    requires 1 <= sr <= n && lo < Pow2(sr) && low < Pow2(n - sr)
    requires q == lo * Pow2(n - sr) + low
    ensures top <= 1 && lo == top * Pow2(sr - 1) + lo' && lo' < Pow2(sr - 1)
    ensures q == top * Pow2(n - 1) + rest && rest < Pow2(n - 1)
    ensures 2 * rest == lo' * Pow2(n - (sr - 1)) + 2 * low
  {
    var t, p := Pow2(n - sr), Pow2(sr - 1);
    top := if lo >= p then 1 else 0;
    lo' := lo - top * p;
    Pow2Add(sr - 1, n - sr);
    ScaledBound(lo', p, t);
    MulNat(lo', t);
    rest := lo' * t + low;
    DistributeBit(top, p, t, lo');
    ScaleTwice(lo', n - (sr - 1));
  }

  /** Doubling a word pushes its top bit out. */
  lemma Doubled(n: nat, q: nat, top: nat, rest: nat)
    requires n >= 1 && top <= 1 && rest < Pow2(n - 1) && q == top * Pow2(n - 1) + rest
    ensures Shr(q, n - 1) == top && Shl(n, q, 1) == 2 * rest
  {
    DivModUnique(q, Pow2(n - 1), top, rest);
    assert Pow2(1) == 2;
    WrapUnique(n, q * 2, top, 2 * rest);
  }

  lemma OrBit(x: nat, bit: nat)
    requires bit <= 1
    ensures Or(2 * x, bit) == 2 * x + bit
  {
    assert Pow2(1) == 2;
    OrDisjoint(x, 1, bit);
  }

  lemma NextPrefix(hi: nat, quot: nat, d: nat, r: nat, bit: nat, r': nat, top: nat)
    requires hi == quot * d + r
    requires (bit == 0 && r' == 2 * r + top) || (bit == 1 && r' == 2 * r + top - d)
    ensures 2 * hi + top == (2 * quot + bit) * d + r'
  {
  }

  /** The consumed prefix leaves room for one more bit, and consuming that bit keeps the split. */
  lemma PrefixFits(n: nat, sr: nat, dividend: nat, hi: nat, lo: nat, quot: nat, d: nat, r: nat,
                   top: nat, lo': nat)
    requires 1 <= sr <= n && dividend < Pow2(n) && dividend == hi * Pow2(sr) + lo
    requires hi == quot * d + r
    requires lo == top * Pow2(sr - 1) + lo'
    ensures r < Pow2(n - 1)
    ensures dividend == (2 * hi + top) * Pow2(sr - 1) + lo'
  {
    ScaleTwice(hi, sr);
    var p := Pow2(sr - 1);
    assert (2 * hi + top) * p == 2 * (hi * p) + top * p;
    MulLe(hi, 1, p);
    MulNat(quot, d);
  }

  lemma Twice(k: nat)
    ensures Pow2(k + 1) == 2 * Pow2(k)
  {
  }

  /** The shifted remainder stays in range of the branch-free comparison. */
  lemma ShiftRange(n: nat, d: nat, sr: nat, r: nat, top: nat, dividend: nat, hi: nat, lo: nat, quot: nat, lo': nat)
    requires 1 <= sr <= n && d < Pow2(n) && r < d && r < Pow2(n - 1) && top <= 1
    requires dividend == hi * Pow2(sr) + lo && hi == quot * d + r && lo == top * Pow2(sr - 1) + lo'
    requires lo' < Pow2(sr - 1)
    requires d <= Pow2(n - 1) || (sr == 1 && quot == 0 && dividend >= Pow2(n - 1))
    ensures 2 * r + top < Pow2(n) && 2 * r + top < 2 * d && d - (2 * r + top) <= Pow2(n - 1)
  {
    Twice(n - 1);
    if d > Pow2(n - 1) {
      assert Pow2(0) == 1 && Pow2(1) == 2;
      hide Pow2;
      assert dividend == 2 * r + top;
    }
  }

  lemma NextRegisters(n: nat, d: nat, sr: nat, quot: nat, p: nat, lo': nat, rest: nat, carry: nat,
                      hi': nat, quot': nat, r': nat, bit: nat)
    requires 1 <= sr <= n && quot / 2 < p && p == Pow2(n - sr) && carry == quot % 2 && lo' < Pow2(sr - 1)
    requires 2 * rest == lo' * Pow2(n - (sr - 1)) + 2 * (quot / 2)
    requires bit <= 1 && quot' == 2 * quot + bit && hi' == quot' * d + r' && r' < d
    ensures Registers(n, d, sr - 1, hi', lo', quot', r', 2 * rest + carry, bit)
  {
    Twice(n - sr);
    hide Pow2;
    Double(quot, bit);
  }

  /** One step: shift the next dividend bit into `r`, then subtract the divisor if it fits. */
  method ShiftStep(n: nat, d: nat, sr: nat, r: nat, q: nat, carry: nat,
                   ghost dividend: nat, ghost hi: nat, ghost lo: nat, ghost quot: nat)
    returns (r': nat, q': nat, carry': nat, ghost hi': nat, ghost lo': nat, ghost quot': nat)
    requires 1 <= sr <= n && d < Pow2(n) && dividend < Pow2(n)
    requires Registers(n, d, sr, hi, lo, quot, r, q, carry)
    requires dividend == hi * Pow2(sr) + lo
    requires d <= Pow2(n - 1) || (sr == 1 && quot == 0 && dividend >= Pow2(n - 1))
    ensures Registers(n, d, sr - 1, hi', lo', quot', r', q', carry')
    ensures dividend == hi' * Pow2(sr - 1) + lo'
    ensures var t := 2 * r + Shr(q, n - 1); if t >= d then r' == t - d && carry' == 1 else r' == t && carry' == 0
  {
    ghost var top, rest;
    top, lo', rest := StepParts(n, d, sr, r, q, carry, dividend, hi, lo, quot);
    hide Registers, Pow2, Or, Shl, Shr;
    var shifted := Or(Shl(n, r, 1), Shr(q, n - 1));
    q' := Or(Shl(n, q, 1), carry);
    ShiftRange(n, d, sr, r, top, dividend, hi, lo, quot, lo');
    r', carry' := ConditionalSubtract(n, d, shifted);
    NextPrefix(hi, quot, d, r, carry', r', top);
    hi', quot' := 2 * hi + top, 2 * quot + carry';
    NextRegisters(n, d, sr, quot, Pow2(n - sr), lo', rest, carry, hi', quot', r', carry');
  }

  /** The bits that a step moves, and the words it computes with. */
  lemma StepParts(n: nat, d: nat, sr: nat, r: nat, q: nat, carry: nat, dividend: nat, hi: nat, lo: nat, quot: nat)
    returns (top: nat, lo': nat, rest: nat)
    requires 1 <= sr <= n && dividend < Pow2(n) && Registers(n, d, sr, hi, lo, quot, r, q, carry)
    requires dividend == hi * Pow2(sr) + lo
    ensures top <= 1 && lo == top * Pow2(sr - 1) + lo' && lo' < Pow2(sr - 1)
    ensures 2 * rest == lo' * Pow2(n - (sr - 1)) + 2 * (quot / 2)
    ensures carry == quot % 2 && quot / 2 < Pow2(n - sr)
    ensures r < Pow2(n - 1) && r < d && hi == quot * d + r && dividend == (2 * hi + top) * Pow2(sr - 1) + lo'
    ensures Shr(q, n - 1) == top && Or(Shl(n, r, 1), top) == 2 * r + top && Or(Shl(n, q, 1), carry) == 2 * rest + carry
  {
    hide Pow2, Or, Shl, Shr;
    top, lo', rest := TopBit(n, sr, lo, quot / 2, q);
    Doubled(n, q, top, rest);
    PrefixFits(n, sr, dividend, hi, lo, quot, d, r, top, lo');
    Doubled(n, r, 0, r);
    OrBit(r, top);
    OrBit(rest, carry);
  }

  /** With no step left, the quotient is in `q` and `carry` and fits the word. */
  lemma FinalQuotient(n: nat, d: nat, hi: nat, lo: nat, quot: nat, r: nat, q: nat, carry: nat)
    requires n >= 1 && hi < Pow2(n) && Registers(n, d, 0, hi, lo, quot, r, q, carry)
    ensures Or(Shl(n, q, 1), carry) == quot
  {
    MulLe(quot, 1, d);
    Doubled(n, q, 0, q);
    OrBit(q, carry);
  }

  /**
   The loop shared by the 32- and 64-bit divisions. It starts from `r = dividend >> sr` and
   `q = dividend << (n - sr)`; the comparison is sound because the divisor is either below the
   sign bit or as wide as the dividend.
   */
  method ShiftSubtract(n: nat, r0: nat, q0: nat, d: nat, sr0: nat, ghost dividend: nat, ghost lo0: nat)
    returns (q: nat, r: nat)
    requires 1 <= sr0 < n && r0 < d < Pow2(n) && lo0 < Pow2(sr0) && dividend < Pow2(n)
    requires dividend == r0 * Pow2(sr0) + lo0 && q0 == lo0 * Pow2(n - sr0)
    requires d <= Pow2(n - 1) || (sr0 == 1 && dividend >= Pow2(n - 1))
    ensures dividend == q * d + r && r < d
  {
    q, r := q0, r0;
    var sr: nat, carry: nat := sr0, 0;
    ghost var hi: nat, lo: nat, quot: nat := r0, lo0, 0;
    while sr > 0
      invariant sr <= sr0 && (sr == sr0 ==> quot == 0)
      invariant Registers(n, d, sr, hi, lo, quot, r, q, carry)
      invariant dividend == hi * Pow2(sr) + lo
    {
      r, q, carry, hi, lo, quot := ShiftStep(n, d, sr, r, q, carry, dividend, hi, lo, quot);
      sr := sr - 1;
    }
    FinalQuotient(n, d, hi, lo, quot, r, q, carry);
    q := Or(Shl(n, q, 1), carry);
  }

  // ----- __udivXi3 and __umodXi3, for any word width

  lemma WidenProduct(a: nat, x: nat, y: nat, d: nat)
    requires a < x * y && x <= d
    ensures a < d * y
  {
    MulLe(y, x, d);
  }

  lemma ClzWidth(n: nat, a: nat, d: nat)
    requires 0 < a < Pow2(n) && 0 < d < Pow2(n)
    requires Clz(n, d) >= Clz(n, a)
    ensures a < d * Pow2(Clz(n, d) - Clz(n, a) + 1)
  {
    var ca, cd := Clz(n, a), Clz(n, d);
    ClzRange(n, a);
    ClzRange(n, d);
    Pow2Add(n - 1 - cd, cd - ca + 1);
    WidenProduct(a, Pow2(n - 1 - cd), Pow2(cd - ca + 1), d);
  }

  /** The leading-zero difference bounds the quotient's width from both sides. */
  lemma ClzDifference(n: nat, a: nat, d: nat)
    requires 0 < a < Pow2(n) && 0 < d < Pow2(n)
    ensures var sr := Clz(n, d) - Clz(n, a);
            && (sr < 0 ==> a < d)
            && (sr >= 0 ==> a < d * Pow2(sr + 1))
            && (sr == n - 1 ==> d == 1)
            && (d > Pow2(n - 1) && sr >= 0 ==> sr == 0 && a >= Pow2(n - 1))
            && sr < n
  {
    var ca, cd := Clz(n, a), Clz(n, d);
    if cd >= ca { ClzWidth(n, a, d); }
    ClzRange(n, a);
    ClzRange(n, d);
    if cd < ca { Pow2Mono(n - ca, n - 1 - cd); }
    if cd > 0 { Pow2Mono(n - cd, n - 1); }
  }

  /** Splitting the dividend at bit `sr` gives the loop's starting registers. */
  lemma StartingRegisters(n: nat, a: nat, sr: nat) returns (lo: nat)
    requires sr <= n && a < Pow2(n)
    ensures lo < Pow2(sr) && a == Shr(a, sr) * Pow2(sr) + lo
    ensures Shl(n, a, n - sr) == lo * Pow2(n - sr)
  {
    var p, t := Pow2(sr), Pow2(n - sr);
    lo := a % p;
    Euclid(a, p);
    Pow2Add(sr, n - sr);
    DistributeBit(Shr(a, sr), p, t, lo);
    ScaledBound(lo, p, t);
    MulNat(lo, t);
    WrapUnique(n, a * t, Shr(a, sr), lo * t);
  }

  lemma SmallPrefix(a: nat, r: nat, p: nat, lo: nat, d: nat)
    requires a == r * p + lo && a < d * p
    ensures r < d
  {
    if r >= d { MulLe(p, d, r); assert false; }
  }

  method UdivmodXi3(n: nat, a: nat, d: nat) returns (q: nat, r: nat)
    requires n >= 1 && a < Pow2(n) && 0 < d < Pow2(n)
    ensures a == q * d + r && r < d
  {
    if a > 0 { ClzDifference(n, a, d); }
    var sr := Clz(n, d) - Clz(n, a);
    if sr < 0 {
      return 0, a;
    }
    if sr == n - 1 {
      return a, 0;
    }
    sr := sr + 1;
    ghost var lo := StartingRegisters(n, a, sr);
    SmallPrefix(a, Shr(a, sr), Pow2(sr), lo, d);
    q, r := ShiftSubtract(n, Shr(a, sr), Shl(n, a, n - sr), d, sr, a, lo);
  }

  // ----- __udivmoddi4: 64 bits as two 32-bit halves

  function Join(high: nat, low: nat): (w: nat)
  {
    high * B + low
  }

  /** A half word split at bit `k`: the upper part fits the shift's complement. */
  lemma SplitHalf(x: nat, k: nat) returns (x1: nat, x0: nat)
    requires x < B && k <= 32
    ensures Pow2(k) * Pow2(32 - k) == B
    ensures x1 == Shr(x, k) && x == x1 * Pow2(k) + x0 && x0 < Pow2(k) && x1 < Pow2(32 - k)
  {
    Pow2Values();
    Pow2Add(k, 32 - k);
    Euclid(x, Pow2(k));
    x1, x0 := Shr(x, k), x % Pow2(k);
    if x1 >= Pow2(32 - k) { MulLe(Pow2(k), Pow2(32 - k), x1); assert false; }
  }

  lemma ShiftHalf(x: nat, p: nat, t: nat, x1: nat, x0: nat)
    requires p * t == B && x == x1 * p + x0 && x0 < p
    ensures x * t == x1 * B + x0 * t && 0 <= x0 * t && x0 * t + t <= B
    ensures U32(x * t) == x0 * t
  {
    DistributeBit(x1, p, t, x0);
    ScaledBound(x0, p, t);
    MulNat(x0, t);
    Residue32(x * t, x1, x0 * t);
  }

  lemma Residue32(x: int, hi: int, lo: nat)
    requires lo < B && x == hi * B + lo
    ensures U32(x) == lo
  {
  }

  /** Two halves shifted across their boundary: what one pushes out the other takes in. */
  lemma ShiftAcross(h: nat, l: nat, k: nat) returns (h1: nat, h0: nat, l1: nat, l0: nat)
    requires h < B && l < B && k <= 32
    ensures Pow2(k) * Pow2(32 - k) == B
    ensures h == h1 * Pow2(k) + h0 && h0 < Pow2(k) && Shr(h, k) == h1
    ensures l == l1 * Pow2(k) + l0 && l0 < Pow2(k) && Shr(l, k) == l1
    ensures h * Pow2(32 - k) == h1 * B + h0 * Pow2(32 - k)
    ensures l * Pow2(32 - k) == l1 * B + l0 * Pow2(32 - k)
    ensures Or(U32(h * Pow2(32 - k)), Shr(l, k)) == h0 * Pow2(32 - k) + l1
    ensures U32(l * Pow2(32 - k)) == l0 * Pow2(32 - k)
  {
    h1, h0 := SplitHalf(h, k);
    l1, l0 := SplitHalf(l, k);
    ShiftHalf(h, Pow2(k), Pow2(32 - k), h1, h0);
    ShiftHalf(l, Pow2(k), Pow2(32 - k), l1, l0);
    OrDisjoint(h0, 32 - k, l1);
  }

  lemma JoinedSmall(nh: nat, nl: nat, p: nat, t: nat, r: nat, l1: nat, l0: nat)
    requires p * t == B && nl == l1 * p + l0 && r == nh * t + l1
    ensures Join(nh, nl) == r * p + l0
  {
    assert (nh * t + l1) * p == nh * (p * t) + l1 * p;
  }

  lemma JoinedLarge(nh: nat, nl: nat, p: nat, t: nat, h1: nat, h0: nat, lo: nat, big: nat)
    requires nh == h1 * p + h0 && lo == h0 * B + nl && big == p * B
    ensures Join(nh, nl) == h1 * big + lo
    ensures h0 < p && nl < B ==> lo < big
    ensures lo * t == h0 * t * B + nl * t
  {
  }

  lemma WholeShift(x: nat, t: nat, big: nat)
    requires big == t * B
    ensures x * big == x * t * B
  {
  }

  /** The starting registers `r = n >> sr` and `q = n << (64 - sr)`, computed on halves. */
  method StartHalves(nh: nat, nl: nat, sr: nat)
    returns (q: nat, r: nat, ghost lo: nat)
    requires nh < B && nl < B && 1 <= sr <= 63
    ensures lo < Pow2(sr) && Join(nh, nl) == r * Pow2(sr) + lo
    ensures q == lo * Pow2(64 - sr)
    ensures r == Shr(Join(nh, nl), sr) && q == Join(nh, nl) % Pow2(sr) * Pow2(64 - sr)
  {
    Pow2Values();
    if sr == 32 {
      q, r, lo := Join(nl, 0), Join(0, nh), nl;
    } else if sr < 32 {
      q, r, lo := StartBelow(nh, nl, sr);
    } else {
      q, r, lo := StartAbove(nh, nl, sr);
    }
    hide Pow2;
    DivModUnique(Join(nh, nl), Pow2(sr), r, lo);
  }

  method StartBelow(nh: nat, nl: nat, sr: nat) returns (q: nat, r: nat, ghost lo: nat)
    requires nh < B && nl < B && 1 <= sr <= 31
    ensures lo < Pow2(sr) && Join(nh, nl) == r * Pow2(sr) + lo
    ensures q == lo * Pow2(64 - sr)
  {
    ghost var h1, h0, l1, l0 := ShiftAcross(nh, nl, sr);
    q := Join(U32(nl * Pow2(32 - sr)), 0);
    r := Join(Shr(nh, sr), Or(U32(nh * Pow2(32 - sr)), Shr(nl, sr)));
    lo := l0;
    JoinedSmall(nh, nl, Pow2(sr), Pow2(32 - sr), r, l1, l0);
    Pow2Values();
    Pow2Add(32 - sr, 32);
    WholeShift(l0, Pow2(32 - sr), Pow2(64 - sr));
  }

  method StartAbove(nh: nat, nl: nat, sr: nat) returns (q: nat, r: nat, ghost lo: nat)
    requires nh < B && nl < B && 33 <= sr <= 63
    ensures lo < Pow2(sr) && Join(nh, nl) == r * Pow2(sr) + lo
    ensures q == lo * Pow2(64 - sr)
  {
    ghost var h1, h0, l1, l0 := ShiftAcross(nh, nl, sr - 32);
    q := Join(Or(U32(nh * Pow2(64 - sr)), Shr(nl, sr - 32)), U32(nl * Pow2(64 - sr)));
    r := Join(0, Shr(nh, sr - 32));
    lo := h0 * B + nl;
    Pow2Values();
    Pow2Add(sr - 32, 32);
    JoinedLarge(nh, nl, Pow2(sr - 32), Pow2(64 - sr), h1, h0, lo, Pow2(sr));
  }

  lemma {:induction false} ClzExtend(n: nat, k: nat, x: nat)
    requires x < Pow2(n)
    ensures Pow2(n) <= Pow2(n + k) && Clz(n + k, x) == k + Clz(n, x)
  {
    Pow2Mono(n, n + k);
    if k == 0 {
    } else {
      Pow2Mono(n, n + k - 1);
      ClzExtend(n, k - 1, x);
    }
  }

  lemma {:induction false} ClzScaled(n: nat, k: nat, x: nat, low: nat)
    requires 0 < x < Pow2(n) && low < Pow2(k)
    ensures x * Pow2(k) + low < Pow2(n + k)
    ensures Clz(n + k, x * Pow2(k) + low) == Clz(n, x)
  {
    Pow2Add(n, k);
    ScaledBound(x, Pow2(n), Pow2(k));
    Pow2Add(n - 1, k);
    if x >= Pow2(n - 1) {
      MulLe(Pow2(k), Pow2(n - 1), x);
    } else {
      ClzScaled(n - 1, k, x, low);
    }
  }

  /** Leading zeros of a double word, from its halves. */
  lemma ClzHalves(h: nat, l: nat)
    requires h < B && l < B
    ensures Pow2(32) == B && Pow2(64) == W
    ensures h > 0 ==> Clz(64, Join(h, l)) == Clz(32, h)
    ensures h == 0 ==> Clz(64, Join(h, l)) == 32 + Clz(32, l)
  {
    Pow2Values();
    if h > 0 { ClzScaled(32, 32, h, l); } else { ClzExtend(32, 32, l); }
  }

  /** Dividing by a multiple of the half-word base leaves the low half alone. */
  lemma HighDivide(nh: nat, nl: nat, dh: nat, b: nat, q: nat, rem: nat)
    requires nh == q * dh + rem && rem < dh && nl < B && b == dh * B
    ensures Join(nh, nl) == q * b + Join(rem, nl)
    ensures Join(rem, nl) < b
  {
  }

  /** Division by a power of two through a mask and a shift. */
  lemma PowerOfTwoDivision(x: nat, d: nat)
    requires d > 0 && And(d, d - 1) == 0
    ensures d == Pow2(Ctz(d))
    ensures x == Shr(x, Ctz(d)) * d + And(x, d - 1) && And(x, d - 1) < d
  {
    PowerOfTwoTest(d);
    AndMask(x, Ctz(d));
    Euclid(x, d);
  }

  /** A half word below 2^32 with 31 leading zeros is one, hence a power of two. */
  lemma NotOne(d: nat)
    requires 0 < d < B && And(d, d - 1) != 0
    ensures Pow2(32) == B && Clz(32, d) < 31
  {
    Pow2Values();
    ClzRange(32, d);
    assert Pow2(1) == 2;
  }

  lemma CtzBounds(d: nat)
    requires 1 < d < B && d == Pow2(Ctz(d))
    ensures 1 <= Ctz(d) < 32
  {
    Pow2Values();
    if Ctz(d) >= 32 { Pow2Mono(32, Ctz(d)); assert false; }
  }

  /** The general case: `sr` is one more than the difference of the leading zeros. */
  method DivideByShifting(nh: nat, nl: nat, b: nat, sr: nat) returns (q: nat, r: nat)
    requires 0 < nh < B && nl < B && 0 < b < W && 1 <= sr <= 63
    requires Pow2(64) == W && Join(nh, nl) < W && sr - 1 == Clz(64, b) - Clz(64, Join(nh, nl))
    ensures Join(nh, nl) == q * b + r && r < b
  {
    ClzDifference(64, Join(nh, nl), b);
    var q0, r0, lo := StartHalves(nh, nl, sr);
    SmallPrefix(Join(nh, nl), r0, Pow2(sr), lo, b);
    q, r := ShiftSubtract(64, r0, q0, b, sr, Join(nh, nl), lo);
  }

  /** Both words have a high half and the divisor's low half is zero. */
  method DivideHighOnly(nh: nat, nl: nat, dh: nat, b: nat) returns (q: nat, r: nat)
    requires 0 < nh < B && nl < B && 0 < dh < B && b == Join(dh, 0)
    ensures Join(nh, nl) == q * b + r && r < b
  {
    hide Clz, Ctz, Pow2, And, Shr;
    if nl == 0 {
      Euclid(nh, dh);
      DivBounds(nh, dh);
      q, r := nh / dh, Join(nh % dh, 0);
      HighDivide(nh, 0, dh, b, q, nh % dh);
    } else if And(dh, dh - 1) == 0 {
      PowerOfTwoDivision(nh, dh);
      q, r := Shr(nh, Ctz(dh)), Join(And(nh, dh - 1), nl);
      HighDivide(nh, nl, dh, b, q, And(nh, dh - 1));
    } else {
      NotOne(dh);
      ClzHalves(nh, nl);
      ClzHalves(dh, 0);
      ClzDifference(64, Join(nh, nl), b);
      var sr := Clz(32, dh) - Clz(32, nh);
      if sr < 0 || sr > 30 {
        q, r := 0, Join(nh, nl);
      } else {
        q, r := DivideByShifting(nh, nl, b, sr + 1);
      }
    }
  }

  /** The divisor fits the low half. */
  method DivideByLow(nh: nat, nl: nat, dl: nat) returns (q: nat, r: nat)
    requires 0 < nh < B && nl < B && 0 < dl < B
    ensures Join(nh, nl) == q * dl + r && r < dl
  {
    if And(dl, dl - 1) == 0 {
      q, r := DivideByPowerOfTwo(nh, nl, dl);
    } else {
      NotOne(dl);
      ClzHalves(nh, nl);
      ClzHalves(0, dl);
      ClzRange(32, nh);
      var sr := 1 + 32 + Clz(32, dl) - Clz(32, nh);
      q, r := DivideByShifting(nh, nl, dl, sr);
    }
  }

  /** The divisor has two non-zero halves. */
  method DivideByBoth(nh: nat, nl: nat, dh: nat, dl: nat, b: nat) returns (q: nat, r: nat)
    requires 0 < nh < B && nl < B && 0 < dh < B && dl < B && b == Join(dh, dl)
    ensures Join(nh, nl) == q * b + r && r < b
  {
    ClzHalves(nh, nl);
    ClzHalves(dh, dl);
    ClzDifference(64, Join(nh, nl), b);
    ClzRange(32, dh);
    var sr := Clz(32, dh) - Clz(32, nh);
    if sr < 0 || sr > 31 {
      q, r := 0, Join(nh, nl);
    } else {
      q, r := DivideByShifting(nh, nl, b, sr + 1);
    }
  }

  /** `__udivmoddi4`: quotient and remainder through every special case on the 32-bit halves. */
  method Udivmoddi4(a: nat, b: nat) returns (q: nat, r: nat)
    requires a < W && 0 < b < W
    ensures a == q * b + r && r < b
  {
    var nh, nl, dh, dl := a / B, a % B, b / B, b % B;
    if nh == 0 && dh == 0 {
      Euclid(nl, dl);
      DivBounds(nl, dl);
      q, r := nl / dl, nl % dl;
    } else if nh == 0 {
      q, r := 0, nl;
    } else if dl == 0 {
      q, r := DivideHighOnly(nh, nl, dh, b);
    } else if dh == 0 {
      q, r := DivideByLow(nh, nl, dl);
    } else {
      q, r := DivideByBoth(nh, nl, dh, dl, b);
    }
  }

  /** A half-word power of two: the quotient is the double word shifted right. */
  method DivideByPowerOfTwo(nh: nat, nl: nat, d: nat) returns (q: nat, r: nat)
    requires nh < B && nl < B && 0 < d < B && And(d, d - 1) == 0
    ensures Join(nh, nl) == q * d + r && r < d
  {
    PowerOfTwoDivision(nl, d);
    r := And(nl, d - 1);
    if d == 1 {
      return Join(nh, nl), r;
    }
    CtzBounds(d);
    var sr := Ctz(d);
    ghost var h1, h0, l1, l0 := ShiftAcross(nh, nl, sr);
    q := Join(Shr(nh, sr), Or(U32(nh * Pow2(32 - sr)), Shr(nl, sr)));
    JoinedSmall(nh, nl, d, Pow2(32 - sr), q, l1, l0);
  }

  // ----- __udivmodti4: 128 bits

  const T: nat := 0x1_0000_0000_0000_0000_0000_0000_0000_0000

  lemma WordConstants()
    ensures Pow2(63) == W / 2 && Pow2(64) == W && Pow2(127) == T / 2 && Pow2(128) == T
  {
    Pow2Values();
    Pow2Add(64, 64);
  }

  /** Two divisions chained: the high word's remainder is carried into the low word. */
  lemma ChainedQuotient(hi: nat, lo: nat, v: nat, qh: nat, rh: nat, ql: nat, r: nat)
    requires hi == qh * v + rh && rh * W + lo == ql * v + r
    ensures hi * W + lo == (qh * W + ql) * v + r
  {
  }

  /** Leading zeros of a 128-bit word with a non-zero high half. */
  lemma ClzHighWord(x: nat)
    requires W <= x < T
    ensures x / W < Pow2(64) && Pow2(128) == T && Clz(64, x / W) == Clz(128, x)
  {
    WordConstants();
    ClzScaled(64, 64, x / W, x % W);
  }

  /** The invariant of the loop: what is left is below twice the shifted divisor. */
  ghost predicate Remaining(a: nat, b: nat, k: nat, quotient: nat, rest: nat) {
    a == quotient * (b * Pow2(k)) + rest && rest < b * Pow2(k)
  }

  lemma NextQuotientBit(a: nat, b: nat, k: nat, quotient: nat, rest: nat, bit: nat, rest': nat)
    requires k >= 1 && Remaining(a, b, k, quotient, rest)
    requires if rest >= b * Pow2(k - 1) then rest' == rest - b * Pow2(k - 1) && bit == 1
             else rest' == rest && bit == 0
    ensures Remaining(a, b, k - 1, 2 * quotient + bit, rest')
  {
    ScaleTwice(b, k);
    var d := b * Pow2(k - 1);
    assert (2 * quotient + bit) * d == quotient * (2 * d) + bit * d;
  }

  lemma QuotientFits(a: nat, b: nat, k: nat, quotient: nat, rest: nat)
    requires a < T && b >= W && Remaining(a, b, k, quotient, rest)
    ensures quotient < W
  {
    var d := b * Pow2(k);
    MulLe(b, 1, Pow2(k));
    if quotient >= W { MulLe(d, W, quotient); assert false; }
  }

  lemma ProductBounds(b: nat, low: nat, high: nat, p: nat)
    requires low <= b < high && p > 0
    ensures low * p <= b * p < high * p
  {
    MulLe(p, low, b);
    MulLe(p, b + 1, high);
  }

  lemma AlignedProduct(a: nat, b: nat, p: nat, low: nat, lowA: nat)
    requires p > 0 && low <= b < 2 * low && lowA <= a < 2 * lowA && low * p == lowA
    ensures b * p < 2 * lowA && b * p - a <= lowA && a < 2 * (b * p)
  {
    ProductBounds(b, low, 2 * low, p);
  }

  /** Shifted by the leading-zero difference, the divisor starts at the dividend's top bit. */
  lemma AlignedDivisor(n: nat, a: nat, b: nat)
    requires 0 < b <= a < Pow2(n)
    ensures Clz(n, b) >= Clz(n, a)
    ensures var d := b * Pow2(Clz(n, b) - Clz(n, a));
            d < Pow2(n) && d - a <= Pow2(n - 1) && a < 2 * d
  {
    hide Clz, Pow2;
    var ca, cb := Clz(n, a), Clz(n, b);
    ClzMonotone(n, b, a);
    ClzTop(n, a);
    ClzTop(n, b);
    Pow2Add(n - 1 - cb, cb - ca);
    AlignedProduct(a, b, Pow2(cb - ca), Pow2(n - 1 - cb), Pow2(n - 1 - ca));
    Pow2Mono(n - 1 - ca, n - 1);
    Twice(n - 1);
  }

  lemma ClzTop(n: nat, x: nat)
    requires 0 < x < Pow2(n)
    ensures Clz(n, x) < n && Pow2(n - 1 - Clz(n, x)) <= x < 2 * Pow2(n - 1 - Clz(n, x))
  {
    hide Clz, Pow2;
    ClzRange(n, x);
    Twice(n - 1 - Clz(n, x));
  }

  lemma WideStart(a: nat, b: nat, shift: int)
    requires W <= b <= a < T && Pow2(128) == T && shift == Clz(128, b) - Clz(128, a)
    ensures 0 <= shift && 0 <= b * Pow2(shift) < T && b * Pow2(shift) - a <= T / 2
    ensures Remaining(a, b, shift + 1, 0, a)
  {
    WordConstants();
    AlignedDivisor(128, a, b);
    ScaleTwice(b, shift + 1);
  }

  /** The new quotient bit keeps the invariant, and the quotient in its word. */
  lemma WideBit(a: nat, b: nat, shift: nat, q: nat, dividend: nat, divisor: nat, bit: nat, dividend': nat)
    requires W <= b && a < T && Remaining(a, b, shift + 1, q, dividend) && divisor == b * Pow2(shift)
    requires if dividend >= divisor then dividend' == dividend - divisor && bit == 1 else dividend' == dividend && bit == 0
    ensures Remaining(a, b, shift, 2 * q + bit, dividend') && 2 * q + bit < W
  {
    hide Remaining, Pow2;
    NextQuotientBit(a, b, shift + 1, q, dividend, bit, dividend');
    QuotientFits(a, b, shift, 2 * q + bit, dividend');
  }

  lemma NextDivisor(b: nat, shift: nat, divisor: nat)
    requires shift >= 1 && divisor == b * Pow2(shift) && divisor < T
    ensures divisor / 2 == b * Pow2(shift - 1) && divisor / 2 <= T / 2
  {
    hide Pow2;
    ScaleTwice(b, shift);
  }

  method WideStep(a: nat, b: nat, shift: nat, q: nat, dividend: nat, divisor: nat)
    returns (q': nat, dividend': nat, divisor': nat)
    requires W <= b && a < T && Remaining(a, b, shift + 1, q, dividend)
    requires divisor == b * Pow2(shift) && divisor < T && divisor - dividend <= T / 2
    ensures Remaining(a, b, shift, q', dividend')
    ensures shift >= 1 ==> divisor' == b * Pow2(shift - 1) && divisor' <= T / 2
  {
    hide Remaining, Or, Pow2;
    WideRange(a, b, shift, q, dividend, divisor);
    var bit;
    dividend', bit := ConditionalSubtract(128, divisor, dividend);
    WideBit(a, b, shift, q, dividend, divisor, bit, dividend');
    OrBit(q, bit);
    q' := Or(U64(2 * q), bit);
    if shift >= 1 { NextDivisor(b, shift, divisor); }
    divisor' := divisor / 2;
  }

  lemma WideRange(a: nat, b: nat, shift: nat, q: nat, dividend: nat, divisor: nat)
    requires a < T && Remaining(a, b, shift + 1, q, dividend) && divisor == b * Pow2(shift)
    ensures Pow2(127) == T / 2 && Pow2(128) == T && dividend < T && dividend < 2 * divisor
  {
    hide Pow2;
    WordConstants();
    ScaleTwice(b, shift + 1);
    MulNat(q, b * Pow2(shift + 1));
  }

  method DivideWide(a: nat, b: nat) returns (q: nat, r: nat)
    requires W <= b <= a < T
    ensures a == q * b + r && r < b
  {
    hide Clz, Pow2, Remaining;
    ClzHighWord(a);
    ClzHighWord(b);
    var shift := Clz(64, b / W) - Clz(64, a / W);
    WideStart(a, b, shift);
    var divisor: nat := U128(b * Pow2(shift));
    q, r := 0, a;
    while shift >= 0
      invariant -1 <= shift
      invariant Remaining(a, b, shift + 1, q, r)
      invariant shift >= 0 ==> divisor == b * Pow2(shift) && divisor < T && divisor - r <= T / 2
    {
      q, r, divisor := WideStep(a, b, shift, q, r, divisor);
      shift := shift - 1;
    }
    NothingLeft(a, b, q, r);
  }

  lemma NothingLeft(a: nat, b: nat, q: nat, r: nat)
    requires Remaining(a, b, 0, q, r)
    ensures a == q * b + r && r < b
  {
    assert b * Pow2(0) == b;
  }

  /** `__udivmodti4`. */
  method Udivmodti4(a: nat, b: nat) returns (q: nat, r: nat)
    requires a < T && 0 < b < T
    ensures a == q * b + r && r < b
  {
    if b > a {
      return 0, a;
    }
    var ah, al := a / W, a % W;
    if b < W {
      if ah < b {
        q, r := Udiv128By64To64(ah, al, b);
      } else {
        Euclid(ah, b);
        DivBounds(ah, b);
        var qh, rh := ah / b, ah % b;
        var ql;
        ql, r := Udiv128By64To64(rh, al, b);
        ChainedQuotient(ah, al, b, qh, rh, ql, r);
        q := qh * W + ql;
      }
      return;
    }
    q, r := DivideWide(a, b);
  }
}
