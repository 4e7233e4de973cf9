/** Numbers as text, `npf_utoa_rev` and `npf_bin_len`, and reading them back. */
module Digits {
  import opened Words

  function DigitChar(d: nat, upper: bool): char
    requires d < 16
  {
    if d < 10 then ('0' as int + d) as char else ((if upper then 'A' else 'a') as int + d - 10) as char
  }

  function DigitValue(c: char): (d: nat)
    ensures d <= 16
  {
    if '0' <= c <= '9' then c as int - '0' as int
    else if 'a' <= c <= 'f' then c as int - 'a' as int + 10
    else if 'A' <= c <= 'F' then c as int - 'A' as int + 10
    else 16
  }

  lemma DigitRoundTrip(d: nat, upper: bool)
    requires d < 16
    ensures DigitValue(DigitChar(d, upper)) == d
  {
  }

  /** The digits of `v`, most significant first. */
  function Number(v: nat, base: nat, upper: bool): (s: string)
    requires 2 <= base <= 16
    ensures |s| >= 1
    decreases v
  {
    QuotientSmaller(v, base);
    (if v / base == 0 then "" else Number(v / base, base, upper)) + [DigitChar(v % base, upper)]
  }

  lemma QuotientSmaller(v: nat, base: nat)
    requires base >= 2
    ensures 0 <= v % base < base && 0 <= v / base <= v && (v > 0 ==> v / base < v)
  {
    Euclid(v, base);
    DivBounds(v, base);
    if v / base >= v > 0 { MulLe(v, 2, base); }
  }

  // ----- reading back

  predicate IsDigit(c: char, base: nat) {
    DigitValue(c) < base
  }

  /** Digits read from the left until something else comes. */
  function ReadDigits(s: string, base: nat, acc: nat): nat {
    if s == "" || !IsDigit(s[0], base) then acc
    else MulNat(acc, base); ReadDigits(s[1..], base, acc * base + DigitValue(s[0]))
  }

  predicate AllDigits(s: string, base: nat) {
    forall k :: 0 <= k < |s| ==> IsDigit(s[k], base)
  }

  /** Reading goes on after a run of digits with what they are worth. */
  lemma {:induction false} ReadOn(s: string, t: string, base: nat, acc: nat)
    requires AllDigits(s, base)
    ensures ReadDigits(s + t, base, acc) == ReadDigits(t, base, ReadDigits(s, base, acc))
  {
    if s == "" {
      assert s + t == t;
    } else {
      MulNat(acc, base);
      assert (s + t)[1..] == s[1..] + t;
      ReadOn(s[1..], t, base, acc * base + DigitValue(s[0]));
    }
  }

  /** A number is all digits, reads back as itself, and has no leading zero unless it is zero. */
  lemma {:induction false} ReadNumber(v: nat, base: nat, upper: bool)
    requires 2 <= base <= 16
    ensures AllDigits(Number(v, base, upper), base) && ReadDigits(Number(v, base, upper), base, 0) == v
    ensures v > 0 ==> Number(v, base, upper)[0] != '0'
    decreases v
  {
    QuotientSmaller(v, base);
    var q, d := v / base, v % base;
    var c := DigitChar(d, upper);
    DigitRoundTrip(d, upper);
    Euclid(v, base);
    if q == 0 {
      assert "" + [c] == [c];
    } else {
      ReadNumber(q, base, upper);
      ReadOn(Number(q, base, upper), [c], base, 0);
    }
  }

  /** Leading zeros are worth nothing. */
  lemma {:induction false} ReadZeros(n: nat, s: string, base: nat)
    requires base >= 2
    ensures ReadDigits(Repeat('0', n) + s, base, 0) == ReadDigits(s, base, 0)
  {
    if n == 0 {
      assert Repeat('0', 0) + s == s;
    } else {
      ReadZeros(n - 1, s, base);
      assert (Repeat('0', n) + s)[1..] == Repeat('0', n - 1) + s;
    }
  }

  function Repeat(c: char, n: nat): (s: string)
    ensures |s| == n && forall k :: 0 <= k < n ==> s[k] == c
  {
    if n == 0 then "" else [c] + Repeat(c, n - 1)
  }

  // ----- npf_utoa_rev

  const BUFFER_SIZE: nat := 23

  /** In a base of at least eight, a digit is worth at least three bits. */
  lemma {:induction false} NumberLength(v: nat, base: nat, upper: bool, n: nat)
    requires 8 <= base <= 16 && n >= 1 && v < Pow2(3 * n)
    ensures |Number(v, base, upper)| <= n
    decreases v
  {
    QuotientSmaller(v, base);
    if v / base != 0 {
      QuotientBound(v, base, n);
      NumberLength(v / base, base, upper, n - 1);
    }
  }

  lemma QuotientBound(v: nat, base: nat, n: nat)
    requires base >= 8 && n >= 1 && v < Pow2(3 * n) && v / base != 0
    ensures n >= 2 && v / base < Pow2(3 * (n - 1))
  {
    Pow2Add(3, 3 * (n - 1));
    assert Pow2(3) == 8;
    hide Pow2;
    QuotientSmaller(v, base);
    Euclid(v, base);
    MulLe(v / base, 8, base);
    PowZero();
  }

  lemma PowZero()
    ensures Pow2(0) == 1
  {
  }

  /** Every 64-bit number fits the conversion buffer. */
  lemma NumberFits(v: nat, base: nat, upper: bool)
    requires 8 <= base <= 16 && v < 0x1_0000_0000_0000_0000
    ensures |Number(v, base, upper)| <= 22
  {
    Pow2Values();
    Pow2Mono(64, 66);
    NumberLength(v, base, upper, 22);
  }

  predicate Reversed(buf: seq<char>, n: nat, s: string) {
    n == |s| <= |buf| && forall k :: 0 <= k < n ==> buf[k] == s[n - 1 - k]
  }

  /** `npf_utoa_rev`: the digits of `val`, last digit first, never beyond the buffer. */
  method UtoaRev(val: nat, buf: array<char>, base: nat, upper: bool) returns (n: nat)
    requires 8 <= base <= 16 && val < 0x1_0000_0000_0000_0000 && buf.Length >= BUFFER_SIZE
    modifies buf
    ensures Reversed(buf[..], n, Number(val, base, upper)) && n < BUFFER_SIZE
  {
    hide Number, DigitChar;
    NumberFits(val, base, upper);
    ghost var all := Number(val, base, upper);
    var v: nat := val;
    n := 0;
    ghost var tail := "";
    while true
      invariant 0 <= n < |all| && Reversed(buf[..], n, tail) && all == Number(v, base, upper) + tail
      decreases v
    {
      LastDigit(v, base, upper);
      var c := DigitChar(v % base, upper);
      buf[n] := c;
      tail := [c] + tail;
      n := n + 1;
      assert Reversed(buf[..], n, tail);
      if v / base == 0 { break; }
      assert all == Number(v / base, base, upper) + tail;
      v := v / base;
    }
  }

  lemma LastDigit(v: nat, base: nat, upper: bool)
    requires 2 <= base <= 16
    ensures 0 <= v % base < base && 0 <= v / base <= v && (v > 0 ==> v / base < v)
    ensures Number(v, base, upper) == (if v / base == 0 then "" else Number(v / base, base, upper)) + [DigitChar(v % base, upper)]
  {
    QuotientSmaller(v, base);
  }

  // ----- binary

  /** `npf_bin_len`. */
  function BinLen(u: nat): nat
    requires u < 0x1_0000_0000_0000_0000
  {
    Pow2Values();
    if u == 0 then 1 else 64 - Clz(64, u)
  }

  lemma {:induction false} BinaryLength(u: nat, n: nat, upper: bool)
    requires n >= 1 && Pow2(n - 1) <= u < Pow2(n)
    ensures |Number(u, 2, upper)| == n
  {
    LastDigit(u, 2, upper);
    if n == 1 {
      assert Pow2(0) == 1 && Pow2(1) == 2;
    } else {
      assert Pow2(n) == 2 * Pow2(n - 1) && Pow2(n - 1) == 2 * Pow2(n - 2);
      BinaryLength(u / 2, n - 1, upper);
    }
  }

  /** `npf_bin_len` is the number of binary digits. */
  lemma BinLenExact(u: nat, upper: bool)
    requires u < 0x1_0000_0000_0000_0000
    ensures |Number(u, 2, upper)| == BinLen(u)
  {
    if u > 0 {
      BinLenRange(u);
      hide Pow2, BinLen, Number;
      BinaryLength(u, BinLen(u), upper);
    }
  }

  lemma BinLenRange(u: nat)
    requires 0 < u < 0x1_0000_0000_0000_0000
    ensures BinLen(u) >= 1 && Pow2(BinLen(u) - 1) <= u < Pow2(BinLen(u))
  {
    Pow2Values();
    hide Pow2, Clz;
    ClzRange(64, u);
  }

  /** Digit `k` from the right is bit `k`. */
  lemma {:induction false} BinaryDigit(u: nat, k: nat, upper: bool)
    requires k < |Number(u, 2, upper)|
    ensures Number(u, 2, upper)[|Number(u, 2, upper)| - 1 - k] == DigitChar(Bit(u, k), upper)
  {
    LastDigit(u, 2, upper);
    if k > 0 {
      BinaryDigit(u / 2, k - 1, upper);
      BitOfHalf(u, k);
    } else {
      BitZero(u);
    }
  }

  /** `u >> k & 1`. */
  function Bit(u: nat, k: nat): (b: nat)
    ensures b < 2
  {
    u / Pow2(k) % 2
  }

  lemma BitZero(u: nat)
    ensures Bit(u, 0) == u % 2
  {
    DivModUnique(u, 1, u, 0);
  }

  lemma BitOfHalf(u: nat, k: nat)
    requires k > 0
    ensures Bit(u, k) == Bit(u / 2, k - 1)
  {
    var p := Pow2(k - 1);
    var h := u / 2;
    Euclid(h, p);
    assert u == h / p * (2 * p) + (2 * (h % p) + u % 2) by { assert 2 * (h / p * p) == h / p * (2 * p); }
    DivModUnique(u, 2 * p, h / p, 2 * (h % p) + u % 2);
  }
}
