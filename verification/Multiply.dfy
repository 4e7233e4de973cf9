/**
 Multiplication in cc-runtime: exact double-word products from half words, the wrapped product
 of two double words, and signed multiplication with overflow detection.

 `H` is the half-word base, 2^16 for `__muldsi3`/`__muldi3` and 2^32 for `__mulddi3`/`__multi3`;
 a word is below `H * H`.
 */
module Multiply {
  import opened Words

  /** A product of two half words fits a word, with room for one more half word. */
  lemma HalfProduct(H: nat, x: nat, y: nat)
    requires x < H && y < H
    ensures 0 <= x * y <= (H - 1) * (H - 1)
  {
    MulNat(x, y);
    MulLe(x, y, H - 1);
    MulLe(H - 1, x, H - 1);
  }

  lemma SquareExpands(H: nat)
    requires H > 0
    ensures (H - 1) * (H - 1) + (H - 1) + (H - 1) == H * H - 1
  {
  }

  /** Splitting a word into half words. */
  lemma SplitWord(H: nat, t: nat)
    requires H > 0 && t < H * H
    ensures t == t / H * H + t % H && 0 <= t / H < H && 0 <= t % H < H
  {
    Euclid(t, H);
    DivBounds(t, H);
    if t / H >= H { MulLe(H, H, t / H); assert false; }
  }

  lemma JoinHalves(H: nat, l: nat, m: nat)
    requires l < H && m < H
    ensures 0 <= l + m * H < H * H
    ensures (l + m * H) / H == m && (l + m * H) % H == l
  {
    MulNat(m, H);
    MulLe(H, m + 1, H);
    DivModUnique(l + m * H, H, m, l);
  }

  /** The schoolbook identity behind the half-word steps. */
  lemma Schoolbook(H: nat, ah: nat, al: nat, bh: nat, bl: nat,
                   t0: nat, l0: nat, c1: nat, m1: nat, c2: nat, m2: nat)
    requires al * bl == t0 * H + l0
    requires t0 + ah * bl == c1 * H + m1
    requires m1 + bh * al == c2 * H + m2
    ensures (ah * H + al) * (bh * H + bl) == (c1 + c2 + ah * bh) * (H * H) + (l0 + m2 * H)
  {
    calc {
      (ah * H + al) * (bh * H + bl);
      (ah * bh) * (H * H) + (ah * bl) * H + (bh * al) * H + al * bl;
      (ah * bh) * (H * H) + (c1 * H + m1 - t0) * H + (c2 * H + m2 - m1) * H + (t0 * H + l0);
      (c1 + c2 + ah * bh) * (H * H) + (l0 + m2 * H);
    }
  }

  lemma HighFits(w: nat, a: nat, b: nat, high: nat, low: nat)
    requires a < w && b < w && a * b == high * w + low
    ensures high < w
  {
    MulLe(a, b, w);
    MulLe(w, a + 1, w);
    if high >= w { MulLe(w, w, high); assert false; }
  }

  /** `__muldsi3` and `__mulddi3`: the exact product of two words, without any overflow on the way. */
  method MulWide(H: nat, a: nat, b: nat) returns (high: nat, low: nat)
    requires H > 0 && a < H * H && b < H * H
    ensures low < H * H && high < H * H
    ensures a * b == high * (H * H) + low
  {
    SplitWord(H, a);
    SplitWord(H, b);
    SquareExpands(H);
    var ah, al, bh, bl := a / H, a % H, b / H, b % H;
    HalfProduct(H, al, bl);
    HalfProduct(H, ah, bl);
    HalfProduct(H, bh, al);

    low := al * bl;
    SplitWord(H, low);
    var t: nat := low / H;
    ghost var t0, l0 := t, low % H;
    low := low % H;
    t := t + ah * bl;
    SplitWord(H, t);
    ghost var c1, m1 := t / H, t % H;
    JoinHalves(H, low, m1);
    low := low + (t % H) * H;
    high := t / H;

    t := low / H;
    low := low % H;
    t := t + bh * al;
    SplitWord(H, t);
    ghost var c2, m2 := t / H, t % H;
    JoinHalves(H, low, m2);
    low := low + (t % H) * H;
    high := high + t / H;
    MulNat(ah, bh);
    high := high + ah * bh;
    Schoolbook(H, ah, al, bh, bl, t0, l0, c1, m1, c2, m2);
    HighFits(H * H, a, b, high, low);
  }

  /** Cross products that overflow the double word drop out of the wrapped result. */
  lemma WrappedProduct(w: nat, xh: nat, xl: nat, yh: nat, yl: nat, high: nat, low: nat, k: int, high': nat)
    requires xl * yl == high * w + low
    requires high + xh * yl + xl * yh == k * w + high'
    ensures (xh * w + xl) * (yh * w + yl) == (k + xh * yh) * (w * w) + (high' * w + low)
  {
    calc {
      (xh * w + xl) * (yh * w + yl);
      (xh * yh) * (w * w) + (xh * yl + xl * yh) * w + xl * yl;
      (xh * yh) * (w * w) + (k * w + high' - high) * w + (high * w + low);
      (k + xh * yh) * (w * w) + (high' * w + low);
    }
  }

  lemma DoubleWord(w: nat, high: nat, low: nat)
    requires high < w && low < w
    ensures 0 <= high * w + low < w * w
  {
    MulNat(high, w);
    MulLe(w, high + 1, w);
  }

  /**
   `__muldi3` and `__multi3`: the product of two double words modulo the double-word range,
   where `w` is the word range `H * H`.
   */
  method MulDouble(H: nat, x: nat, y: nat) returns (r: nat)
    requires H > 0 && x < H * H * (H * H) && y < H * H * (H * H)
    ensures r < H * H * (H * H)
    ensures r == x * y % (H * H * (H * H))
  {
    var w := H * H;
    assert w > 0;
    SplitWord(w, x);
    SplitWord(w, y);
    var xh, xl, yh, yl := x / w, x % w, y / w, y % w;
    var high, low := MulWide(H, xl, yl);
    var sum := high + xh * yl + xl * yh;
    Euclid(sum, w);
    var high' := sum % w;
    WrappedProduct(w, xh, xl, yh, yl, high, low, sum / w, high');
    DoubleWord(w, high', low);
    r := high' * w + low;
    DivModUnique(x * y, w * w, sum / w + xh * yh, r);
  }

  // ----- overflow detection

  /** The value of `x` as a two's complement number of range [-m, m). */
  function Signed(m: int, x: int): (r: int)
    requires m > 0
    ensures -m <= r < m
    ensures -m <= x < m ==> r == x
  {
    Residue(x + m, 2 * m);
    (x + m) % (2 * m) - m
  }

  /** `a ^ (a >> (N-1))` minus the same sign word is the absolute value. */
  function AbsBySign(a: int): (r: int)
    ensures r == if a < 0 then -a else a
  {
    var sign := if a < 0 then -1 else 0;
    (if sign == -1 then -a - 1 else a) - sign
  }

  /** Dividing the limit tells whether the product passes it. */
  lemma LimitTest(x: nat, y: nat, limit: nat)
    requires y > 0
    ensures x > limit / y <==> x * y > limit
  {
    Euclid(limit, y);
    if x > limit / y {
      MulLe(y, limit / y + 1, x);
    } else {
      MulLe(y, x, limit / y);
    }
  }

  lemma SignedProduct(a: int, b: int)
    ensures var p := AbsBySign(a) * AbsBySign(b);
            p >= 0 && a * b == if (a < 0) == (b < 0) then p else -p
  {
    MulNat(AbsBySign(a), AbsBySign(b));
  }

  lemma MinimumTimes(m: int, b: int)
    requires m > 0
    ensures -m <= -m * b < m <==> b == 0 || b == 1
  {
    if b >= 2 { MulLe(m, 2, b); } else if b <= -1 { MulLe(m, 1, -b); }
  }

  lemma TrivialFactor(m: int, x: nat, y: nat)
    requires x < 2 || y < 2
    requires x < m && y < m
    ensures x * y < m
  {
  }

  /** The tests that `__muloXi4` makes on the absolute values decide representability. */
  lemma GeneralTest(m: int, a: int, b: int, x: nat, y: nat)
    requires m >= 2 && -m < a < m && -m < b < m && x == AbsBySign(a) && y == AbsBySign(b)
    ensures x < 2 || y < 2 ==> -m <= a * b < m
    ensures x >= 2 && y >= 2 && (a < 0) == (b < 0) ==> (x > (m - 1) / y <==> !(-m <= a * b < m))
    ensures x >= 2 && y >= 2 && (a < 0) != (b < 0) ==> (x > m / y <==> !(-m <= a * b < m))
  {
    SignedProduct(a, b);
    if x < 2 || y < 2 {
      TrivialFactor(m, x, y);
    } else {
      LimitTest(x, y, m - 1);
      LimitTest(x, y, m);
    }
  }

  /**
   `__muloXi4` for a word of range [-m, m): the result is the wrapped product, and the flag is
   set exactly when the mathematical product is not representable.
   */
  method MulOverflow(m: int, a: int, b: int) returns (result: int, overflow: bool)
    requires m >= 2 && -m <= a < m && -m <= b < m
    ensures overflow <==> !(-m <= a * b < m)
    ensures result == Signed(m, a * b)
    ensures !overflow ==> result == a * b
  {
    hide Signed;
    result := Signed(m, a * b);
    if a == -m {
      MinimumTimes(m, b);
      return result, b != 0 && b != 1;
    }
    if b == -m {
      MinimumTimes(m, a);
      return result, a != 0 && a != 1;
    }
    var absA, absB := AbsBySign(a), AbsBySign(b);
    hide AbsBySign;
    GeneralTest(m, a, b, absA, absB);
    if absA < 2 || absB < 2 { return result, false; }
    if (a < 0) == (b < 0) {
      overflow := absA > (m - 1) / absB;
    } else {
      overflow := absA > m / absB;
    }
  }
}
