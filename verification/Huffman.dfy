/**
 The Huffman decoder of the JPEG code: a table of 1024 entries indexed by the next ten bits,
 which also decodes the value bits when they fit, with a bit-by-bit loop for longer codes.

 The reference is ITU-T T.81: the canonical codes of Annex C, decoding as in section F.2.2.3
 and EXTEND as in section F.2.2.1.
 */
module Huffman {
  import opened Words
  import opened JpegBits

  const DECBITS: nat := 10
  const BADHUFF: int := -1

  // ----- canonical codes

  /** One more than the last code of length `i + 1`. */
  function MaxCode(len: seq<nat>, i: nat): nat
    requires i < |len|
  {
    (if i == 0 then 0 else 2 * MaxCode(len, i - 1)) + len[i]
  }

  /** The first code of length `i + 1`. */
  function FirstCode(len: seq<nat>, i: nat): nat
    requires i < |len|
  {
    if i == 0 then 0 else 2 * MaxCode(len, i - 1)
  }

  /** The number of codes shorter than `i + 1` bits. */
  function ValPtr(len: seq<nat>, i: nat): nat
    requires i <= |len|
  {
    if i == 0 then 0 else ValPtr(len, i - 1) + len[i - 1]
  }

  /** The share of all 16-bit words taken by codes of at most `n` bits. */
  function Taken(len: seq<nat>, n: nat): nat
    requires n <= |len| <= 16
  {
    if n == 0 then 0 else Taken(len, n - 1) + len[n - 1] * Pow2(16 - n)
  }

  /** Sixteen code counts that satisfy the Kraft bound and a matching list of symbols. */
  predicate Spec(len: seq<nat>, hv: seq<nat>) {
    && |len| == 16 && Taken(len, 16) <= Pow2(16)
    && ValPtr(len, 16) <= |hv| && ValPtr(len, 16) <= 256
    && forall k :: 0 <= k < |hv| ==> hv[k] < 256
  }

  /** The bits at `pos` start with the `j`-th code of length `i + 1`. */
  predicate Starts(bs: seq<nat>, pos: nat, len: seq<nat>, i: nat, j: nat) {
    i < |len| && j < len[i] && Window(bs, pos, i + 1) == FirstCode(len, i) + j
  }

  function Symbol(len: seq<nat>, hv: seq<nat>, i: nat, j: nat): (v: nat)
    requires Spec(len, hv) && i < 16 && j < len[i]
    ensures v < 256
  {
    PtrBound(len, i, 16);
    hv[ValPtr(len, i) + j]
  }

  /** EXTEND of section F.2.2.1. */
  function Extend(v: nat, t: nat): int {
    if t > 0 && v < Pow2(t - 1) then v - Pow2(t) + 1 else v
  }

  datatype Coded = Coded(run: nat, value: int, used: nat)

  /** Run, value and length of what is encoded at `pos` by the `j`-th code of length `i + 1`. */
  function Decoded(bs: seq<nat>, pos: nat, len: seq<nat>, hv: seq<nat>, i: nat, j: nat): Coded
    requires Spec(len, hv) && i < 16 && j < len[i]
  {
    var v := Symbol(len, hv, i, j);
    Coded(v / 16, Extend(Window(bs, pos + i + 1, v % 16), v % 16), i + 1 + v % 16)
  }

  lemma {:induction false} PtrBound(len: seq<nat>, i: nat, n: nat)
    requires i < n <= |len|
    ensures ValPtr(len, i) + len[i] <= ValPtr(len, n)
  {
    if i + 1 < n { PtrBound(len, i, n - 1); }
  }

  /** The codes of at most `i + 1` bits take exactly the words below the last of them. */
  lemma {:induction false} TakenCodes(len: seq<nat>, i: nat)
    requires i < |len| <= 16
    ensures Taken(len, i + 1) == MaxCode(len, i) * Pow2(15 - i)
  {
    if i == 0 {
    } else {
      TakenCodes(len, i - 1);
      ScaleTwice(MaxCode(len, i - 1), 16 - i);
      Distribute(MaxCode(len, i - 1), len[i], Pow2(15 - i));
    }
  }

  lemma Distribute(x: nat, y: nat, p: nat)
    ensures (2 * x + y) * p == 2 * (x * p) + y * p
  {
  }

  lemma {:induction false} CodeBound(len: seq<nat>, i: nat)
    requires i < |len| == 16 && Taken(len, 16) <= Pow2(16)
    ensures MaxCode(len, i) <= Pow2(i + 1)
    decreases 16 - i
  {
    if i == 15 {
      TakenCodes(len, 15);
    } else {
      CodeBound(len, i + 1);
    }
  }

  /** A stream that starts with a code has passed every shorter code. */
  lemma {:induction false} Passed(bs: seq<nat>, pos: nat, len: seq<nat>, i: nat, k: nat)
    requires k < i < |len| && Window(bs, pos, i + 1) >= FirstCode(len, i)
    ensures Window(bs, pos, k + 1) >= MaxCode(len, k)
  {
    hide Bit;
    if k + 1 < i { Passed(bs, pos, len, i - 1, k); }
  }

  /** A stream below the last code of some length starts with a code of at most that length. */
  lemma {:induction false} FindCode(bs: seq<nat>, pos: nat, len: seq<nat>, k: nat) returns (i: nat, j: nat)
    requires k < |len| && Window(bs, pos, k + 1) < MaxCode(len, k)
    ensures i <= k && Starts(bs, pos, len, i, j)
  {
    hide Bit;
    if Window(bs, pos, k + 1) >= FirstCode(len, k) {
      i, j := k, Window(bs, pos, k + 1) - FirstCode(len, k);
    } else {
      i, j := FindCode(bs, pos, len, k - 1);
    }
  }

  /** Canonical codes are prefix-free: a stream starts with at most one of them. */
  lemma CodeUnique(bs: seq<nat>, pos: nat, len: seq<nat>, i: nat, j: nat, k: nat, l: nat)
    requires Starts(bs, pos, len, i, j) && Starts(bs, pos, len, k, l)
    ensures i == k && j == l
  {
    hide Window;
    if i < k { Passed(bs, pos, len, k, i); }
    if k < i { Passed(bs, pos, len, i, k); }
  }

  lemma {:induction false} TakenMono(len: seq<nat>, m: nat, n: nat)
    requires m <= n <= |len| <= 16
    ensures Taken(len, m) <= Taken(len, n)
  {
    if m < n {
      TakenMono(len, m, n - 1);
      MulNat(len[n - 1], Pow2(16 - n));
    }
  }

  /** A code of `i + 1` bits followed by zeros, as a 16-bit word. */
  function LeftAligned(len: seq<nat>, i: nat, j: nat): nat
    requires i < |len| <= 16
  {
    MulNat(FirstCode(len, i) + j, Pow2(15 - i));
    (FirstCode(len, i) + j) * Pow2(15 - i)
  }

  lemma ScaledStep(f: nat, j: nat, n: nat, p: nat)
    requires j < n && p > 0
    ensures f * p <= (f + j) * p && (f + j) * p + p <= (f + n) * p
  {
    MulLe(p, f, f + j);
    MulLe(p, f + j + 1, f + n);
    assert (f + j + 1) * p == (f + j) * p + p;
  }

  /** The codes of one length lie between the shares taken by the shorter ones and by these. */
  lemma AlignedBounds(len: seq<nat>, i: nat, j: nat)
    requires i < |len| <= 16 && j < len[i]
    ensures Taken(len, i) <= LeftAligned(len, i, j) && LeftAligned(len, i, j) + Pow2(15 - i) <= Taken(len, i + 1)
  {
    TakenCodes(len, i);
    FirstAligned(len, i);
    CodesOfLength(len, i);
    hide Pow2, MaxCode, FirstCode, Taken;
    ScaledStep(FirstCode(len, i), j, len[i], Pow2(15 - i));
  }

  lemma CodesOfLength(len: seq<nat>, i: nat)
    requires i < |len|
    ensures MaxCode(len, i) == FirstCode(len, i) + len[i]
  {
  }

  lemma FirstAligned(len: seq<nat>, i: nat)
    requires i < |len| <= 16
    ensures FirstCode(len, i) * Pow2(15 - i) == Taken(len, i)
  {
    if i > 0 {
      TakenCodes(len, i - 1);
      ScaleTwice(MaxCode(len, i - 1), 16 - i);
      hide Pow2, Taken, MaxCode;
      TwoTimes(MaxCode(len, i - 1), Pow2(15 - i));
    }
  }

  /** Codes ascend in the order in which their symbols are listed. */
  lemma CodesAscend(len: seq<nat>, i: nat, j: nat, k: nat, l: nat)
    requires |len| == 16 && i < 16 && k < 16 && j < len[i] && l < len[k] && ValPtr(len, i) + j < ValPtr(len, k) + l
    ensures LeftAligned(len, i, j) < LeftAligned(len, k, l)
  {
    hide Pow2, FirstCode, Taken, ValPtr;
    if k < i {
      PtrBound(len, k, i);
    } else if i == k {
      ScaledStep(FirstCode(len, i), j, l, Pow2(15 - i));
    } else {
      hide LeftAligned;
      AlignedBounds(len, i, j);
      AlignedBounds(len, k, l);
      TakenMono(len, i + 1, k);
    }
  }

  /** Every listed symbol has a code, and it is the one that stands as often after others as the symbol does. */
  lemma {:induction false} CodeOfSymbol(len: seq<nat>, hv: seq<nat>, n: nat, k: nat) returns (i: nat, j: nat)
    requires Spec(len, hv) && k <= 16 && n < ValPtr(len, k)
    ensures i < k && j < len[i] && ValPtr(len, i) + j == n && n < |hv| && Symbol(len, hv, i, j) == hv[n]
  {
    if n >= ValPtr(len, k - 1) {
      i, j := k - 1, n - ValPtr(len, k - 1);
      PtrBound(len, i, 16);
    } else {
      i, j := CodeOfSymbol(len, hv, n, k - 1);
    }
  }

  // ----- the table

  /** The entry for symbol `v` of a code of `i + 1` bits that is followed by the bits `d`. */
  function Pack(i: nat, v: nat, d: nat): int
    requires i < DECBITS
  {
    var s := v % 16;
    if s + i < DECBITS
    then Extend(Shr(d, 9 - i - s), s) * 0x1_0000 + v / 16 * 0x100 + 0x80 + (9 - i - s)
    else s * 0x1_0000 + v / 16 * 0x100 + (9 - i)
  }

  /** The entry at `r`: for the shortest length, from `i + 1` on, whose codes reach the top bits of `r`. */
  function Entry(len: seq<nat>, hv: seq<nat>, r: nat, i: nat): int
    requires Spec(len, hv) && i <= DECBITS
    decreases DECBITS - i
  {
    if i == DECBITS then 0 else
    var c := r / Pow2(9 - i);
    if c >= MaxCode(len, i) then Entry(len, hv, r, i + 1)
    else if c < FirstCode(len, i) then 0
    else Pack(i, Symbol(len, hv, i, c - FirstCode(len, i)), r % Pow2(9 - i))
  }

  lemma {:induction false} PassedTop(len: seq<nat>, r: nat, i: nat, k: nat)
    requires k < i < DECBITS <= |len| && r / Pow2(9 - i) >= FirstCode(len, i)
    ensures r / Pow2(9 - k) >= MaxCode(len, k)
  {
    HalfQuotient(r, 9 - i);
    hide Pow2;
    if k + 1 < i { PassedTop(len, r, i - 1, k); }
  }

  lemma {:induction false} EntryAtCode(len: seq<nat>, hv: seq<nat>, r: nat, i: nat, j: nat, k: nat)
    requires Spec(len, hv) && k <= i < DECBITS && j < len[i] && r / Pow2(9 - i) == FirstCode(len, i) + j
    ensures Entry(len, hv, r, k) == Pack(i, Symbol(len, hv, i, j), r % Pow2(9 - i))
    decreases i - k
  {
    hide Pow2, Pack, Symbol;
    if k < i {
      PassedTop(len, r, i, k);
      EntryAtCode(len, hv, r, i, j, k + 1);
    }
  }

  lemma {:induction false} EntryMiss(len: seq<nat>, hv: seq<nat>, r: nat, k: nat)
    requires Spec(len, hv) && k <= DECBITS && r >= MaxCode(len, 9)
    ensures Entry(len, hv, r, k) == 0
    decreases DECBITS - k
  {
    if k < DECBITS {
      EntryMiss(len, hv, r, k + 1);
      DivModUnique(r, Pow2(0), r, 0);
      if k < 9 { PassedTop(len, r, 9, k); }
    }
  }

  /** The first entry whose top bits are a code of `i + 1` bits. */
  function At(i: nat, code: nat): nat
    requires i < DECBITS
  {
    code * Pow2(9 - i)
  }

  /** The entries before those of the `j`-th code of length `i + 1`. */
  function Bound(len: seq<nat>, i: nat, j: nat): nat
    requires |len| == 16
  {
    if i < DECBITS then At(i, FirstCode(len, i) + j) else MaxCode(len, 9)
  }

  lemma CodeFits(len: seq<nat>, i: nat, j: nat)
    requires |len| == 16 && Taken(len, 16) <= Pow2(16) && i < DECBITS && j < len[i]
    ensures Bound(len, i, j) <= Bound(len, i, j + 1) <= 1024
  {
    assert Pow2(10) == 1024;
    hide Pow2, Taken;
    CodeBound(len, i);
    Pow2Add(i + 1, 9 - i);
    assert MaxCode(len, i) == FirstCode(len, i) + len[i];
    hide MaxCode, FirstCode;
    ScaleLe(FirstCode(len, i) + j, FirstCode(len, i) + j + 1, Pow2(9 - i));
    ScaleLe(FirstCode(len, i) + j + 1, Pow2(i + 1), Pow2(9 - i));
  }

  lemma ScaleLe(x: nat, y: nat, p: nat)
    requires x <= y
    ensures x * p <= y * p
  {
    MulLe(p, x, y);
  }

  lemma NextLength(len: seq<nat>, i: nat)
    requires |len| == 16 && i < 16
    ensures Bound(len, i, len[i]) == Bound(len, i + 1, 0)
  {
    if i < 9 {
      hide Pow2;
      ScaleTwice(MaxCode(len, i), 9 - i);
      Distribute(MaxCode(len, i), 0, Pow2(8 - i));
    }
  }

  lemma LongBound(len: seq<nat>, i: nat, j: nat)
    requires |len| == 16 && i >= DECBITS
    ensures Bound(len, i, j) == Bound(len, i, j + 1)
  {
  }

  lemma EntryOfCode(len: seq<nat>, hv: seq<nat>, i: nat, j: nat, r: nat)
    requires Spec(len, hv) && i < DECBITS && j < len[i] && Bound(len, i, j) <= r < Bound(len, i, j + 1)
    ensures Entry(len, hv, r, 0) == Pack(i, Symbol(len, hv, i, j), r - Bound(len, i, j))
  {
    hide Pack, Symbol, Pow2, Taken;
    var p, c := Pow2(9 - i), FirstCode(len, i) + j;
    assert (c + 1) * p == c * p + p;
    DivModUnique(r, p, c, r - c * p);
    EntryAtCode(len, hv, r, i, j, 0);
  }

  lemma FirstBound(len: seq<nat>)
    requires |len| == 16
    ensures Bound(len, 0, 0) == 0
  {
  }

  lemma LastBound(len: seq<nat>, hv: seq<nat>)
    requires Spec(len, hv)
    ensures forall r :: Bound(len, 16, 0) <= r < 1024 ==> Entry(len, hv, r, 0) == 0
  {
    forall r | Bound(len, 16, 0) <= r < 1024
      ensures Entry(len, hv, r, 0) == 0
    {
      EntryMiss(len, hv, r, 0);
    }
  }

  // ----- decoding

  /** What the bits at `pos` encode, together with the number of bits taken. */
  ghost predicate Encodes(bs: seq<nat>, pos: nat, len: seq<nat>, hv: seq<nat>, x: Coded)
    requires Spec(len, hv)
  {
    exists i, j :: Starts(bs, pos, len, i, j) && x == Decoded(bs, pos, len, hv, i, j)
  }

  ghost predicate HasCode(bs: seq<nat>, pos: nat, len: seq<nat>) {
    exists i, j :: Starts(bs, pos, len, i, j)
  }

  /** At most one thing is encoded at `pos`. */
  lemma EncodesUnique(bs: seq<nat>, pos: nat, len: seq<nat>, hv: seq<nat>, x: Coded, y: Coded)
    requires Spec(len, hv) && Encodes(bs, pos, len, hv, x) && Encodes(bs, pos, len, hv, y)
    ensures x == y
  {
    hide Window, Decoded;
    var i, j :| Starts(bs, pos, len, i, j) && x == Decoded(bs, pos, len, hv, i, j);
    var k, l :| Starts(bs, pos, len, k, l) && y == Decoded(bs, pos, len, hv, k, l);
    CodeUnique(bs, pos, len, i, j, k, l);
  }

  // ----- encoding

  function Abs(x: int): nat {
    if x < 0 then -x else x
  }

  /** The size category of section F.1.2.1: the number of binary digits of a magnitude. */
  function Category(m: nat): nat {
    if m == 0 then 0 else 1 + Category(m / 2)
  }

  lemma {:induction false} CategoryBounds(m: nat)
    ensures m < Pow2(Category(m)) && (m > 0 ==> Category(m) > 0 && Pow2(Category(m) - 1) <= m)
  {
    if m == 0 {
    } else {
      CategoryBounds(m / 2);
    }
  }

  /** The bits that an encoder appends for a value: its low-order bits, or those of `x - 1` if it is negative. */
  function ValueBits(x: int): (v: nat) {
    var p := Pow2(Category(Abs(x)));
    Residue(x, p);
    Residue(x - 1, p);
    if x >= 0 then x % p else (x - 1) % p
  }

  /** EXTEND undoes that, for every value. */
  lemma ExtendValue(x: int)
    ensures Extend(ValueBits(x), Category(Abs(x))) == x && ValueBits(x) < Pow2(Category(Abs(x)))
  {
    var c := Category(Abs(x));
    CategoryBounds(Abs(x));
    if x >= 0 {
      DivModUnique(x, Pow2(c), 0, x);
    } else {
      assert Pow2(c) == 2 * Pow2(c - 1);
      DivModUnique(x - 1, Pow2(c), -1, x - 1 + Pow2(c));
    }
  }

  /** EXTEND is odd about the middle of its range. */
  lemma ExtendOdd(v: nat, t: nat)
    requires 1 <= t && v < Pow2(t)
    ensures Extend(Pow2(t) - 1 - v, t) == -Extend(v, t) && (Pow2(t - 1) <= v ==> Extend(v, t) == v)
  {
    assert Pow2(t) == 2 * Pow2(t - 1);
  }

  /** A run of zeros, the value after it, and the code chosen for their symbol: the `j`-th of length `i + 1`. */
  datatype Token = Token(run: nat, value: int, i: nat, j: nat)

  /** The code stands for the symbol with the run in its upper and the size category in its lower half. */
  predicate Encodable(len: seq<nat>, hv: seq<nat>, t: Token)
    requires Spec(len, hv)
  {
    && t.i < 16 && t.j < len[t.i] && t.run < 16 && Category(Abs(t.value)) < 16
    && Symbol(len, hv, t.i, t.j) == 16 * t.run + Category(Abs(t.value))
  }

  /** The stream holds the token's code and value bits at `pos`. */
  predicate Written(bs: seq<nat>, pos: nat, len: seq<nat>, hv: seq<nat>, t: Token)
    requires Spec(len, hv)
  {
    && Encodable(len, hv, t) && Window(bs, pos, t.i + 1) == FirstCode(len, t.i) + t.j
    && Window(bs, pos + t.i + 1, Category(Abs(t.value))) == ValueBits(t.value)
  }

  /** What is written is what is encoded. */
  lemma WrittenEncodes(bs: seq<nat>, pos: nat, len: seq<nat>, hv: seq<nat>, t: Token)
    requires Spec(len, hv) && Written(bs, pos, len, hv, t)
    ensures Encodes(bs, pos, len, hv, Coded(t.run, t.value, t.i + 1 + Category(Abs(t.value))))
  {
    hide Window, Extend, Symbol, ValueBits, FirstCode;
    var c := Category(Abs(t.value));
    hide Category;
    DivModUnique(16 * t.run + c, 16, t.run, c);
    ExtendValue(t.value);
    assert Starts(bs, pos, len, t.i, t.j);
    assert Decoded(bs, pos, len, hv, t.i, t.j) == Coded(t.run, t.value, t.i + 1 + c);
  }

  lemma Hit(bs: seq<nat>, pos: nat, len: seq<nat>, hv: seq<nat>, i: nat, j: nat)
    requires Spec(len, hv) && i < DECBITS && Starts(bs, pos, len, i, j)
    ensures Entry(len, hv, Window(bs, pos, DECBITS), 0)
         == Pack(i, Symbol(len, hv, i, j), Window(bs, pos + i + 1, 9 - i))
  {
    hide Window, Entry, Pack, Symbol, Pow2;
    WindowParts(bs, pos, i + 1, 9 - i);
    EntryAtCode(len, hv, Window(bs, pos, DECBITS), i, j, 0);
  }

  lemma NoCode(bs: seq<nat>, pos: nat, len: seq<nat>)
    requires |len| == 16 && Window(bs, pos, 16) >= MaxCode(len, 15)
    ensures !HasCode(bs, pos, len)
  {
    hide Window;
    forall i, j ensures !Starts(bs, pos, len, i, j) {
      if i < 15 { Passed(bs, pos, len, 15, i); }
    }
  }

  lemma Unpack(i: nat, v: nat, d: nat)
    requires i < DECBITS && v < 256
    ensures var e, s := Pack(i, v, d), v % 16;
            && e != 0 && (e / 128 % 2 == 1 <==> s + i < DECBITS)
            && e / 0x100 % 16 == v / 16
            && e % 128 == (if s + i < DECBITS then 9 - i - s else 9 - i)
            && e / 0x1_0000 == if s + i < DECBITS then Extend(Shr(d, 9 - i - s), s) else s
  {
    var s := v % 16;
    if s + i < DECBITS {
      PackedFields(Extend(Shr(d, 9 - i - s), s), v / 16, 1, 9 - i - s);
    } else {
      PackedFields(s, v / 16, 0, 9 - i);
    }
  }

  lemma PackedFields(x: int, r: nat, f: nat, b: nat)
    requires r < 16 && f < 2 && b < 128
    ensures var e := x * 0x1_0000 + r * 0x100 + f * 0x80 + b;
            e / 128 % 2 == f && e / 0x100 % 16 == r && e % 128 == b && e / 0x1_0000 == x
  {
    var e := x * 0x1_0000 + r * 0x100 + f * 0x80 + b;
    DivModUnique(e, 128, x * 512 + r * 2 + f, b);
    DivModUnique(x * 512 + r * 2 + f, 2, x * 256 + r, f);
    DivModUnique(e, 0x100, x * 256 + r, f * 128 + b);
    DivModUnique(x * 256 + r, 16, x * 16, r);
    DivModUnique(e, 0x1_0000, x, r * 0x100 + f * 0x80 + b);
  }

  lemma NextBit(bs: seq<nat>, pos: nat, n: nat)
    ensures Window(bs, pos, n + 1) == 2 * Window(bs, pos, n) + Window(bs, pos + n, 1)
  {
    WindowSplit(bs, pos, n, 1);
    assert Pow2(1) == 2;
  }

  lemma SeventeenBits(bs: seq<nat>, pos: nat)
    ensures Window(bs, pos, 17) < 0x2_0000
  {
    Pow2Values();
  }

  /** The value bits inside a direct entry. */
  lemma DirectValue(bs: seq<nat>, pos: nat, n: nat, s: nat)
    requires s <= n
    ensures Shr(Window(bs, pos, n), n - s) == Window(bs, pos, s)
  {
    WindowParts(bs, pos, s, n - s);
  }

  lemma TenBits(bs: seq<nat>, pos: nat)
    ensures Window(bs, pos, DECBITS) < 1024
  {
    assert Pow2(10) == 1024;
  }

  /** An entry with its flag set is a whole answer. */
  lemma DirectHit(bs: seq<nat>, pos: nat, len: seq<nat>, hv: seq<nat>) returns (i: nat, j: nat)
    requires Spec(len, hv) && Entry(len, hv, Window(bs, pos, DECBITS), 0) / 128 % 2 == 1
    ensures Starts(bs, pos, len, i, j)
    ensures var e := Entry(len, hv, Window(bs, pos, DECBITS), 0);
            0 <= e / 0x100 % 16 && e % 128 <= DECBITS &&
            Coded(e / 0x100 % 16, e / 0x1_0000, DECBITS - e % 128) == Decoded(bs, pos, len, hv, i, j)
  {
    hide Window, Entry, Pack, Taken, Pow2, Extend;
    i, j := Find(bs, pos, len, hv);
    var v := Symbol(len, hv, i, j);
    Unpack(i, v, Window(bs, pos + i + 1, 9 - i));
    DirectValue(bs, pos + i + 1, 9 - i, v % 16);
  }

  /** An entry without its flag gives the code only. */
  lemma CodeOnlyHit(bs: seq<nat>, pos: nat, len: seq<nat>, hv: seq<nat>) returns (i: nat, j: nat)
    requires Spec(len, hv)
    requires var e := Entry(len, hv, Window(bs, pos, DECBITS), 0); e != 0 && e / 128 % 2 == 0
    ensures Starts(bs, pos, len, i, j) && i < DECBITS
    ensures var e, v := Entry(len, hv, Window(bs, pos, DECBITS), 0), Symbol(len, hv, i, j);
            e / 0x100 % 16 == v / 16 && e / 0x1_0000 == v % 16 && e % 128 == 9 - i
  {
    hide Window, Entry, Pack, Taken, Pow2, Extend, Symbol;
    i, j := Find(bs, pos, len, hv);
    Unpack(i, Symbol(len, hv, i, j), Window(bs, pos + i + 1, 9 - i));
  }

  /** A non-zero entry comes from a code of at most ten bits. */
  lemma Find(bs: seq<nat>, pos: nat, len: seq<nat>, hv: seq<nat>) returns (i: nat, j: nat)
    requires Spec(len, hv) && Entry(len, hv, Window(bs, pos, DECBITS), 0) != 0
    ensures i < DECBITS && Starts(bs, pos, len, i, j)
    ensures Entry(len, hv, Window(bs, pos, DECBITS), 0)
         == Pack(i, Symbol(len, hv, i, j), Window(bs, pos + i + 1, 9 - i))
  {
    hide Window, Entry, Pack, Taken, Pow2, Symbol;
    if Window(bs, pos, DECBITS) >= MaxCode(len, 9) { EntryMiss(len, hv, Window(bs, pos, DECBITS), 0); }
    i, j := FindCode(bs, pos, len, 9);
    Hit(bs, pos, len, hv, i, j);
  }

  /** A zero entry means that no code of at most ten bits matches. */
  lemma NotHit(bs: seq<nat>, pos: nat, len: seq<nat>, hv: seq<nat>)
    requires Spec(len, hv) && Entry(len, hv, Window(bs, pos, DECBITS), 0) == 0
    ensures Window(bs, pos, DECBITS) >= MaxCode(len, 9)
  {
    hide Window, Entry, Pack, Taken, Pow2, Symbol;
    if Window(bs, pos, DECBITS) < MaxCode(len, 9) {
      var i, j := FindCode(bs, pos, len, 9);
      Hit(bs, pos, len, hv, i, j);
      Unpack(i, Symbol(len, hv, i, j), Window(bs, pos + i + 1, 9 - i));
    }
  }

  class Table {
    const maxcode: array<nat>
    const valptr: array<nat>
    const vals: array<nat>
    const llvals: array<int>

    ghost predicate Shape() {
      && maxcode.Length == 17 && valptr.Length == 16 && vals.Length == 256 && llvals.Length == 1024
      && maxcode != valptr && maxcode != vals && valptr != vals
    }

    constructor ()
      ensures Shape() && fresh(maxcode) && fresh(valptr) && fresh(vals) && fresh(llvals)
    {
      maxcode := new nat[17];
      valptr := new nat[16];
      vals := new nat[256];
      llvals := new int[1024];
    }

    ghost predicate Copied(hv: seq<nat>, n: nat)
      reads vals
    {
      n <= vals.Length && n <= |hv| && forall k :: 0 <= k < n ==> vals[k] == hv[k]
    }

    /** Every entry below `b` is right and the others are zero. */
    ghost predicate Filled(len: seq<nat>, hv: seq<nat>, b: nat)
      requires Spec(len, hv)
      reads llvals
    {
      llvals.Length == 1024 &&
      forall r :: 0 <= r < 1024 ==> llvals[r] == if r < b then Entry(len, hv, r, 0) else 0
    }

    /** Entries for one code, from the last to the first. */
    method FillCode(i: nat, code: nat, v: nat)
      requires Shape() && i < DECBITS && v < 256 && At(i, code + 1) <= 1024
      modifies llvals
      ensures forall r :: At(i, code) <= r < At(i, code + 1) ==> llvals[r] == Pack(i, v, r - At(i, code))
      ensures forall r :: 0 <= r < 1024 && !(At(i, code) <= r < At(i, code + 1)) ==> llvals[r] == old(llvals[r])
    {
      hide Pow2, Or, Pack;
      var p := Pow2(9 - i);
      var c := code * p;
      MulNat(code, p);
      assert (code + 1) * p == c + p;
      var s := v % 16;
      var d := p;
      while d > 0
        invariant 0 <= d <= p
        invariant forall r :: c + d <= r < c + p ==> llvals[r] == Pack(i, v, r - c)
        invariant forall r :: 0 <= r < 1024 && !(c + d <= r < c + p) ==> llvals[r] == old(llvals[r])
      {
        d := d - 1;
        var x := EntryFor(i, v, s, d);
        OrDisjoint(code, 9 - i, d);
        llvals[Or(c, d)] := x;
      }
    }

    /** The entry for one code followed by the bits `d`. */
    method EntryFor(i: nat, v: nat, s: nat, d: nat) returns (x: int)
      requires i < DECBITS && v < 256 && s == v % 16 && d < Pow2(9 - i)
      ensures x == Pack(i, v, d)
    {
      hide Pow2;
      if s + i < DECBITS {
        x := Shr(d, 9 - i - s);
        if s > 0 && x < Pow2(s - 1) { x := x - Pow2(s) + 1; }
        x := x * 0x1_0000 + v / 16 * 0x100 + (DECBITS - (i + 1 + s)) + 0x80;
      } else {
        x := s * 0x1_0000 + v / 16 * 0x100 + (DECBITS - (i + 1));
      }
    }
  
    /** The codes of length `i + 1`. */
    method FillLength(len: seq<nat>, hv: seq<nat>, i: nat, code0: nat) returns (code: nat)
      requires Shape() && Spec(len, hv) && i < 16 && Filled(len, hv, Bound(len, i, 0))
      requires Copied(hv, ValPtr(len, i)) && valptr[i] == ValPtr(len, i) && code0 == FirstCode(len, i)
      modifies vals, llvals
      ensures code == MaxCode(len, i)
      ensures Filled(len, hv, Bound(len, i + 1, 0)) && Copied(hv, ValPtr(len, i + 1))
    {
      hide Pack, Entry, Bound, Taken, Pow2;
      PtrBound(len, i, 16);
      var k := valptr[i];
      code := code0;
      var j := 0;
      while j < len[i]
        invariant 0 <= j <= len[i] && k == ValPtr(len, i) + j && code == FirstCode(len, i) + j
        invariant Copied(hv, k) && Filled(len, hv, Bound(len, i, j))
      {
        vals[k] := hv[k];
        if i < DECBITS {
          FillNext(len, hv, i, j, code, vals[k]);
        } else {
          assert Bound(len, i, j) == Bound(len, i, j + 1) by { LongBound(len, i, j); }
        }
        code, k, j := code + 1, k + 1, j + 1;
      }
      NextLength(len, i);
    }

    method FillNext(ghost len: seq<nat>, ghost hv: seq<nat>, i: nat, ghost j: nat, code: nat, v: nat)
      requires Shape() && Spec(len, hv) && i < DECBITS && j < len[i] && Filled(len, hv, Bound(len, i, j))
      requires code == FirstCode(len, i) + j && v == Symbol(len, hv, i, j)
      modifies llvals
      ensures Filled(len, hv, Bound(len, i, j + 1))
    {
      hide Pack, Entry, Taken, At, Symbol;
      CodeFits(len, i, j);
      ghost var was := llvals[..];
      FillCode(i, code, v);
      forall r | 0 <= r < 1024
        ensures llvals[r] == if r < Bound(len, i, j + 1) then Entry(len, hv, r, 0) else 0
      {
        if Bound(len, i, j) <= r < Bound(len, i, j + 1) { EntryOfCode(len, hv, i, j, r); }
        assert was[r] == if r < Bound(len, i, j) then Entry(len, hv, r, 0) else 0;
      }
    }
  
    /** The table decodes the code that `len` and `hv` describe. */
    ghost predicate Decodes(len: seq<nat>, hv: seq<nat>)
      reads maxcode, valptr, vals, llvals
    {
      && Shape() && Spec(len, hv) && Copied(hv, ValPtr(len, 16)) && maxcode[16] == 0x2_0000
      && (forall i :: 0 <= i < 16 ==> maxcode[i] == MaxCode(len, i) && valptr[i] == ValPtr(len, i))
      && Filled(len, hv, 1024)
    }

    /** No entry is set yet. */
    method Clear(ghost len: seq<nat>, ghost hv: seq<nat>)
      requires Shape() && Spec(len, hv)
      modifies llvals
      ensures Filled(len, hv, Bound(len, 0, 0))
    {
      hide Pack, Entry, Bound, Taken, Pow2;
      for n := 0 to 1024
        invariant forall r :: 0 <= r < n ==> llvals[r] == 0
      {
        llvals[n] := 0;
      }
      FirstBound(len);
    }

    /** `dec_makehuff`. */
    method Make(len: seq<nat>, hv: seq<nat>)
      requires Shape() && Spec(len, hv)
      modifies maxcode, valptr, vals, llvals
      ensures Decodes(len, hv)
    {
      hide Filled, Bound, Made, ValPtr, FirstCode;
      Clear(len, hv);
      var code, k, i := 0, 0, 0;
      NoneMade(len, hv);
      while i < 16
        invariant 0 <= i <= 16 && Made(len, hv, i) && k == ValPtr(len, i) && (i < 16 ==> code == FirstCode(len, i))
      {
        code, k := MakeLength(len, hv, i, code, k);
        i := i + 1;
      }
      Finish(len, hv);
    }

    /** The tables for codes of at most `i` bits. */
    ghost predicate Made(len: seq<nat>, hv: seq<nat>, i: nat)
      requires Spec(len, hv) && i <= 16
      reads maxcode, valptr, vals, llvals
    {
      && Shape() && Filled(len, hv, Bound(len, i, 0)) && Copied(hv, ValPtr(len, i))
      && forall n :: 0 <= n < i ==> maxcode[n] == MaxCode(len, n) && valptr[n] == ValPtr(len, n)
    }

    lemma NoneMade(len: seq<nat>, hv: seq<nat>)
      requires Shape() && Spec(len, hv) && Filled(len, hv, Bound(len, 0, 0))
      ensures Made(len, hv, 0) && ValPtr(len, 0) == 0 && FirstCode(len, 0) == 0
    {
      hide Filled, Bound;
    }

    method MakeLength(len: seq<nat>, hv: seq<nat>, i: nat, code0: nat, k: nat) returns (code: nat, next: nat)
      requires Spec(len, hv) && i < 16 && Made(len, hv, i) && k == ValPtr(len, i) && code0 == FirstCode(len, i)
      modifies maxcode, valptr, vals, llvals
      ensures Made(len, hv, i + 1) && next == ValPtr(len, i + 1) && (i < 15 ==> code == FirstCode(len, i + 1))
    {
      hide Pack, Entry, Bound, Taken, Pow2;
      valptr[i] := k;
      code := FillLength(len, hv, i, code0);
      maxcode[i] := code;
      code, next := 2 * code, k + len[i];
    }

    method Finish(ghost len: seq<nat>, ghost hv: seq<nat>)
      requires Spec(len, hv) && Made(len, hv, 16)
      modifies maxcode
      ensures Decodes(len, hv)
    {
      hide Pack, Entry, Bound, Taken, Pow2;
      maxcode[16] := 0x2_0000;
      LastBound(len, hv);
    }
  
    /** The loop of `dec_rec2` for codes of more than ten bits. */
    method LongCode(r: Reader, c0: nat, ghost len: seq<nat>, ghost hv: seq<nat>, ghost start: nat)
      returns (i: nat, c: nat)
      requires r.Valid() && Decodes(len, hv) && r.pos == start + DECBITS
      requires c0 == Window(r.payload, start, DECBITS) >= MaxCode(len, 9)
      modifies r
      ensures DECBITS <= i <= 16 && r.Valid() && r.pos == start + i + 1
      ensures c == Window(r.payload, start, i + 1) && Window(r.payload, start, i) >= MaxCode(len, i - 1)
      ensures i < 16 ==> c < MaxCode(len, i)
    {
      hide Window, Bit, Entry, Taken, Filled, Pow2;
      SeventeenBits(r.payload, start);
      i := DECBITS;
      var b := r.GetBits(1);
      c := 2 * c0 + b;
      NextBit(r.payload, start, i);
      while c >= maxcode[i]
        invariant DECBITS <= i <= 16 && r.Valid() && r.pos == start + i + 1
        invariant c == Window(r.payload, start, i + 1) && Window(r.payload, start, i) >= MaxCode(len, i - 1)
        decreases 16 - i
      {
        i := i + 1;
        b := r.GetBits(1);
        c := 2 * c + b;
        NextBit(r.payload, start, i);
      }
    }
  
    /** First half of `dec_rec2`: run and size of a code that has no direct entry. */
    method ReadCode(r: Reader, c0: nat, e: int, ghost len: seq<nat>, ghost hv: seq<nat>, ghost start: nat)
      returns (ok: bool, run: nat, n: nat, ghost i: nat, ghost j: nat)
      requires r.Valid() && Decodes(len, hv) && r.pos == start + DECBITS && r.back == DECBITS
      requires c0 == Window(r.payload, start, DECBITS) && e == Entry(len, hv, c0, 0) && e / 128 % 2 == 0
      modifies r
      ensures ok <==> HasCode(r.payload, start, len)
      ensures ok ==> r.Valid() && Starts(r.payload, start, len, i, j) && r.pos == start + i + 1
      ensures ok ==> run == Symbol(len, hv, i, j) / 16 && n == Symbol(len, hv, i, j) % 16
      ensures !ok ==> r.marker == BADHUFF
    {
      hide Window, Pack, Entry, Taken, Filled, Pow2;
      if e != 0 {
        i, j := CodeOnlyHit(r.payload, start, len, hv);
        r.UngetBits(e % 128);
        ok, run, n := true, e / 0x100 % 16, e / 0x1_0000;
      } else {
        NotHit(r.payload, start, len, hv);
        var k, c := LongCode(r, c0, len, hv, start);
        if k >= 16 {
          NoCode(r.payload, start, len);
          ok, run, n, i, j := false, 0, 0, 0, 0;
          r.marker := BADHUFF;
          return;
        }
        NextBit(r.payload, start, k);
        PtrBound(len, k, 16);
        var v := vals[valptr[k] + c - maxcode[k - 1] * 2];
        ok, run, n := true, v / 16, v % 16;
        i, j := k, c - FirstCode(len, k);
      }
      assert Starts(r.payload, start, len, i, j);
    }

    /** Second half of `dec_rec2`: the value bits. */
    method Receive(r: Reader, n: nat) returns (value: int)
      requires r.Valid() && n < 16
      modifies r
      ensures r.Valid() && r.pos == old(r.pos) + n && value == Extend(Window(r.payload, old(r.pos), n), n)
    {
      hide Bit;
      if n == 0 { return 0; }
      value := r.GetBits(n);
      if value < Pow2(n - 1) { value := value - Pow2(n) + 1; }
    }

    /** `DEC_REC`: what the reader returns and how far it moves is what the stream encodes. */
    method DecRec(r: Reader, ghost len: seq<nat>, ghost hv: seq<nat>) returns (ok: bool, run: nat, value: int)
      requires r.Valid() && Decodes(len, hv)
      modifies r
      ensures ok <==> HasCode(r.payload, old(r.pos), len)
      ensures ok ==> r.Valid() && r.pos >= old(r.pos)
      ensures ok ==> Encodes(r.payload, old(r.pos), len, hv, Coded(run, value, r.pos - old(r.pos)))
      ensures forall t :: Written(r.payload, old(r.pos), len, hv, t) ==>
                && ok && run == t.run && value == t.value
                && r.pos == old(r.pos) + t.i + 1 + Category(Abs(t.value))
      ensures !ok ==> r.marker == BADHUFF
    {
      hide Window, Pack, Entry, Taken, Symbol;
      ghost var start := r.pos;
      TenBits(r.payload, start);
      hide Pow2;
      var c := r.GetBits(DECBITS);
      var e := llvals[c];
      if e / 128 % 2 == 1 {
        ghost var i, j := DirectHit(r.payload, start, len, hv);
        r.UngetBits(e % 128);
        ok, run, value := true, e / 0x100 % 16, e / 0x1_0000;
        assert Coded(run, value, r.pos - start) == Decoded(r.payload, start, len, hv, i, j);
      } else {
        var n;
        ghost var i, j;
        ok, run, n, i, j := ReadCode(r, c, e, len, hv, start);
        if ok {
          value := Receive(r, n);
          assert Coded(run, value, r.pos - start) == Decoded(r.payload, start, len, hv, i, j);
        } else {
          value := 0;
        }
      }
      forall t | Written(r.payload, start, len, hv, t)
        ensures ok && run == t.run && value == t.value && r.pos == start + t.i + 1 + Category(Abs(t.value))
      {
        ReadsToken(r.payload, start, len, hv, t, ok, Coded(run, value, if ok then r.pos - start else 0));
      }
    }
  }

  /** A decoder that follows the stream returns what was written. */
  lemma ReadsToken(bs: seq<nat>, pos: nat, len: seq<nat>, hv: seq<nat>, t: Token, ok: bool, x: Coded)
    requires Spec(len, hv) && Written(bs, pos, len, hv, t)
    requires ok <==> HasCode(bs, pos, len)
    requires ok ==> Encodes(bs, pos, len, hv, x)
    ensures ok && x == Coded(t.run, t.value, t.i + 1 + Category(Abs(t.value)))
  {
    hide Window, Decoded, Written, FirstCode, Category;
    WrittenEncodes(bs, pos, len, hv, t);
    var y := Coded(t.run, t.value, t.i + 1 + Category(Abs(t.value)));
    assert HasCode(bs, pos, len);
    EncodesUnique(bs, pos, len, hv, x, y);
  }
}
