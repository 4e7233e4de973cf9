/**
 The bit stream of a JPEG scan. The payload is the scan's bytes with stuffing removed, followed
 by zero bits for ever; the reader keeps up to 32 bits of it in a register.
 */
module JpegBits {
  import opened Words

  /** Bit `n` of the payload, most significant first; zero past its end. */
  function Bit(bs: seq<nat>, n: nat): (b: nat)
    ensures b < 2
  {
    if n / 8 < |bs| then bs[n / 8] / Pow2(7 - n % 8) % 2 else 0
  }

  /** The `n` bits from `pos` on, as a number. */
  function Window(bs: seq<nat>, pos: nat, n: nat): (w: nat)
    ensures w < Pow2(n)
  {
    if n == 0 then 0 else 2 * Window(bs, pos, n - 1) + Bit(bs, pos + n - 1)
  }

  lemma {:induction false} WindowSplit(bs: seq<nat>, pos: nat, m: nat, n: nat)
    ensures Window(bs, pos, m + n) == Window(bs, pos, m) * Pow2(n) + Window(bs, pos + m, n)
  {
    hide Bit;
    if n == 0 {
    } else {
      WindowSplit(bs, pos, m, n - 1);
      ScaleTwice(Window(bs, pos, m), n);
      assert pos + (m + n) - 1 == (pos + m) + n - 1;
    }
  }

  /** The upper and lower parts of a window. */
  lemma WindowParts(bs: seq<nat>, pos: nat, m: nat, n: nat)
    ensures Window(bs, pos, m + n) / Pow2(n) == Window(bs, pos, m)
    ensures Window(bs, pos, m + n) % Pow2(n) == Window(bs, pos + m, n)
  {
    WindowSplit(bs, pos, m, n);
    DivModUnique(Window(bs, pos, m + n), Pow2(n), Window(bs, pos, m), Window(bs, pos + m, n));
  }

  /** Byte `k` of the payload, zero past its end. */
  function Byte(bs: seq<nat>, k: nat): nat {
    if k < |bs| then bs[k] else 0
  }

  lemma BitOfByte(bs: seq<nat>, k: nat, j: nat)
    requires j < 8
    ensures Bit(bs, 8 * k + j) == Byte(bs, k) / Pow2(7 - j) % 2
  {
    assert (8 * k + j) / 8 == k && (8 * k + j) % 8 == j;
    if k >= |bs| { DivModUnique(0, Pow2(7 - j), 0, 0); }
  }

  lemma {:induction false} BitsOfByte(bs: seq<nat>, k: nat, n: nat)
    requires n <= 8 && Byte(bs, k) < 256
    ensures Window(bs, 8 * k, n) == Byte(bs, k) / Pow2(8 - n)
  {
    hide Bit, Byte;
    if n == 0 {
      assert Pow2(8) == 256;
      DivModUnique(Byte(bs, k), 256, 0, Byte(bs, k));
    } else {
      BitsOfByte(bs, k, n - 1);
      BitOfByte(bs, k, n - 1);
      HalfQuotient(Byte(bs, k), 8 - n);
    }
  }

  /** A byte of the payload is its eight bits. */
  lemma ByteWindow(bs: seq<nat>, k: nat)
    requires Byte(bs, k) < 256
    ensures Window(bs, 8 * k, 8) == Byte(bs, k)
  {
    BitsOfByte(bs, k, 8);
    DivModUnique(Byte(bs, k), 1, Byte(bs, k), 0);
  }

  lemma HalfQuotient(b: nat, k: nat)
    ensures b / Pow2(k) == 2 * (b / Pow2(k + 1)) + b / Pow2(k) % 2
  {
    var p := Pow2(k);
    Euclid(b, p);
    var q, r := b / p, b % p;
    Euclid(q, 2);
    assert b == q / 2 * (2 * p) + (q % 2 * p + r) by {
      assert q * p == (2 * (q / 2) + q % 2) * p;
    }
    DivModUnique(b, 2 * p, q / 2, q % 2 * p + r);
  }

  // ----- register arithmetic

  /** Masking a shifted word is shifting a masked word. */
  lemma ShiftMask(x: nat, a: nat, n: nat)
    ensures x / Pow2(a) % Pow2(n) == x % Pow2(a + n) / Pow2(a)
  {
    hide Pow2;
    Pow2Add(a, n);
    Digits(x, Pow2(a), Pow2(n));
  }

  /** The three digits of `x` in the mixed base `p`, `t`. */
  lemma Digits(x: nat, p: nat, t: nat)
    requires p > 0 && t > 0
    ensures x / p % t == x % (p * t) / p && x / p / t == x / (p * t) && x % p == x % (p * t) % p
  {
    var q, r := x / p, x % p;
    Euclid(x, p);
    Euclid(q, t);
    var h, m := q / t, q % t;
    DigitsUnique(x, p, t, h, m, r);
  }

  lemma DigitsUnique(x: nat, p: nat, t: nat, h: int, m: nat, r: nat)
    requires x == (h * t + m) * p + r && m < t && r < p
    ensures x / (p * t) == h && x % (p * t) == m * p + r
    ensures (m * p + r) / p == m && (m * p + r) % p == r
  {
    MulLe(p, m + 1, t);
    MulNat(m, p);
    assert x == h * (p * t) + (m * p + r) by { assert h * t * p == h * (p * t); }
    DivModUnique(x, p * t, h, m * p + r);
    DivModUnique(m * p + r, p, m, r);
  }

  /** Reducing to 32 bits first does not matter below bit 32. */
  lemma LowBits(x: nat, n: nat)
    requires n <= 32
    ensures U32(x) % Pow2(n) == x % Pow2(n)
  {
    Pow2Values();
    hide Pow2;
    Pow2Add(n, 32 - n);
    Digits(x, Pow2(n), Pow2(32 - n));
  }

  /** Shifting a register left and filling in `n` bits. */
  lemma ShiftIn(bits: nat, left: nat, n: nat, b: nat)
    requires b < Pow2(n)
    ensures (bits * Pow2(n) + b) % Pow2(left + n) == bits % Pow2(left) * Pow2(n) + b
  {
    hide Pow2;
    Pow2Add(left, n);
    ShiftInDigit(bits, Pow2(n), Pow2(left), b);
  }

  lemma ShiftInDigit(bits: nat, t: nat, p: nat, b: nat)
    requires p > 0 && b < t
    ensures (bits * t + b) % (p * t) == bits % p * t + b
  {
    var q, v := bits / p, bits % p;
    Euclid(bits, p);
    MulNat(bits, t);
    DigitsUnique(bits * t + b, t, p, q, v, b);
    assert p * t == t * p;
  }

  /** The low `n` bits of a register. */
  function Low(x: nat, n: nat): nat {
    x % Pow2(n)
  }

  /** The `n` bits of a register above its low `a` bits. */
  function Field(x: nat, a: nat, n: nat): nat {
    x / Pow2(a) % Pow2(n)
  }

  /** The register after `bi << n | b`. */
  function Pushed(bits: nat, n: nat, b: nat): nat
  {
    Or(U32(bits * Pow2(n)), b)
  }

  lemma PushedSum(bits: nat, n: nat, b: nat)
    requires n <= 32 && b < Pow2(n)
    ensures Pushed(bits, n, b) == U32(bits * Pow2(n) + b)
  {
    Pow2Values();
    hide Pow2, Or;
    Pow2Add(32 - n, n);
    ShiftInDigit(bits, Pow2(n), Pow2(32 - n), 0);
    ShiftInDigit(bits, Pow2(n), Pow2(32 - n), b);
    OrDisjoint(bits % Pow2(32 - n), n, b);
  }

  lemma PushedWindow(bs: seq<nat>, pos: nat, bits: nat, left: nat, n: nat, b: nat)
    requires left + n <= 32 && Low(bits, left) == Window(bs, pos, left) && b == Window(bs, pos + left, n)
    ensures Low(Pushed(bits, n, b), left + n) == Window(bs, pos, left + n)
  {
    hide Window, Or, Pushed;
    WindowSplit(bs, pos, left, n);
    PushedSum(bits, n, b);
    ShiftIn(bits, left, n, b);
    MulNat(bits, Pow2(n));
    LowBits(bits * Pow2(n) + b, left + n);
  }

  /** Past the payload there are only zeros. */
  lemma {:induction false} ZeroWindow(bs: seq<nat>, pos: nat, n: nat)
    requires pos >= 8 * |bs|
    ensures Window(bs, pos, n) == 0
  {
    if n == 0 {
    } else {
      ZeroWindow(bs, pos, n - 1);
    }
  }

  // ----- the scan's bytes

  /** The payload that starts at raw position `p`: stuffed zeros dropped, up to the first marker. */
  function Payload(data: seq<nat>, p: nat): seq<nat>
    decreases |data| - p
  {
    if p + 1 >= |data| then []
    else if data[p] != 0xff then [data[p]] + Payload(data, p + 1)
    else if data[p + 1] == 0 then [0xff] + Payload(data, p + 2)
    else []
  }

  /** The scan ends in a marker, so that reading stops inside the data. */
  predicate Terminated(data: seq<nat>, p: nat)
    decreases |data| - p
  {
    p + 1 < |data| && (if data[p] != 0xff then Terminated(data, p + 1)
                       else data[p + 1] != 0 || Terminated(data, p + 2))
  }

  lemma {:induction false} PayloadBytes(data: seq<nat>, p: nat)
    requires forall i :: 0 <= i < |data| ==> data[i] < 256
    ensures Payload(data, p) != [] ==> Payload(data, p)[0] < 256
  {
  }

  class Reader {
    const data: seq<nat>
    ghost const payload: seq<nat>
    var p: nat
    var bits: nat
    var left: nat
    var marker: int
    /** Position of the next unread bit in the payload, and how many bits can be put back. */
    ghost var pos: nat
    ghost var back: nat

    ghost predicate Valid()
      reads this
    {
      && (forall i :: 0 <= i < |data| ==> data[i] < 256)
      && back <= pos && left + back <= 32
      && Low(bits, left + back) == Window(payload, pos - back, left + back)
      && (marker == 0 ==> Terminated(data, p) && Loaded(pos + left))
      && (marker != 0 ==> pos + left >= 8 * |payload|)
    }

    /** Exactly the payload bytes up to bit `n` have been loaded. */
    ghost predicate Loaded(n: nat)
      reads this
    {
      n % 8 == 0 && n / 8 <= |payload| && payload[n / 8..] == Payload(data, p)
    }

    /** `setinput`. */
    constructor (data: seq<nat>)
      requires Terminated(data, 0) && forall i :: 0 <= i < |data| ==> data[i] < 256
      ensures Valid() && pos == 0 && payload == Payload(data, 0)
    {
      this.data := data;
      payload := Payload(data, 0);
      p, bits, left, marker, pos, back := 0, 0, 0, 0, 0, 0;
    }

    /** A payload byte goes into the register. */
    lemma LoadedByte(b: nat)
      requires Valid() && back == 0 && left <= 24 && marker == 0 && Payload(data, p) != [] && b == Payload(data, p)[0]
      ensures Low(Pushed(bits, 8, b), left + 8) == Window(payload, pos, left + 8)
      ensures (pos + left) / 8 < |payload| && payload[(pos + left) / 8 + 1..] == Payload(data, p)[1..]
    {
      hide Window, Pow2, Payload, Terminated, Pushed;
      var k := (pos + left) / 8;
      assert payload[k] == payload[k..][0] == b;
      PayloadBytes(data, p);
      ByteWindow(payload, k);
      PushedWindow(payload, pos, bits, left, 8, b);
    }

    /** `bi << 8 | b` for a payload byte that took `n` raw bytes. */
    method PushByte(b: nat, n: nat)
      requires Valid() && back == 0 && left <= 24 && marker == 0 && Terminated(data, p + n)
      requires Payload(data, p) == [b] + Payload(data, p + n)
      modifies `p, `bits, `left
      ensures Valid() && left == old(left) + 8 && p == old(p) + n
    {
      hide Window, Pow2, Low, Pushed, Payload, Terminated;
      LoadedByte(b);
      p, bits, left := p + n, Pushed(bits, 8, b), left + 8;
    }

    /** `bi << 16` once the marker has been met. */
    method PushZeros()
      requires Valid() && back == 0 && left <= 16 && marker != 0
      modifies `bits, `left
      ensures Valid() && left == old(left) + 16
    {
      hide Window, Pow2, Low, Pushed, Payload, Terminated;
      ZeroWindow(payload, pos + left, 16);
      PushedWindow(payload, pos, bits, left, 16, 0);
      bits, left := Pushed(bits, 16, 0), left + 16;
    }

    /** `fillbits`, called when fewer than `n` bits are left. */
    method FillBits(n: nat)
      requires Valid() && left < n <= 16
      modifies this
      ensures Valid() && pos == old(pos) && back == 0 && left >= n
    {
      hide Window, Low;
      Forget();
      if marker != 0 {
        PushZeros();
        return;
      }
      while left <= 24
        invariant Valid() && pos == old(pos) && back == 0 && marker == 0
        decreases 32 - left
      {
        hide Loaded;
        var b := data[p];
        if b == 0xff {
          var m := data[p + 1];
          if m != 0 {
            p, marker := p + 2, m;
            if left <= 16 { PushZeros(); }
            return;
          }
          PushByte(b, 2);
        } else {
          PushByte(b, 1);
        }
      }
    }

    /** The bits already handed out are not kept across a refill. */
    ghost method Forget()
      requires Valid()
      modifies `back
      ensures Valid() && back == 0
    {
      hide Window, Low, Payload, Terminated;
      KeepLow(bits, payload, pos, back, left);
      back := 0;
    }

    /** `GETBITS`. */
    method GetBits(n: nat) returns (v: nat)
      requires Valid() && n <= 16
      modifies this
      ensures Valid() && v == Window(payload, old(pos), n) && pos == old(pos) + n && back == n
    {
      hide Window, Low, Field, Payload, Terminated;
      if left < n { FillBits(n); }
      Forget();
      left := left - n;
      TopBits(bits, payload, pos, n, left);
      v := Field(bits, left, n);
      pos, back := pos + n, n;
    }

    /** `UNGETBITS`: at most as many bits as the last `GETBITS` took. */
    method UngetBits(n: nat)
      requires Valid() && n <= back
      modifies `left, `pos, `back
      ensures Valid() && pos == old(pos) - n && back == old(back) - n
    {
      hide Window, Low, Payload, Terminated;
      left, pos, back := left + n, pos - n, back - n;
    }
  }

  lemma TopBits(bits: nat, bs: seq<nat>, pos: nat, n: nat, left: nat)
    requires Low(bits, left + n) == Window(bs, pos, left + n)
    ensures Field(bits, left, n) == Window(bs, pos, n)
  {
    hide Window, Pow2;
    ShiftMask(bits, left, n);
    WindowParts(bs, pos, n, left);
  }

  lemma KeepLow(bits: nat, bs: seq<nat>, pos: nat, back: nat, left: nat)
    requires back <= pos && Low(bits, left + back) == Window(bs, pos - back, left + back)
    ensures Low(bits, left) == Window(bs, pos, left)
  {
    hide Window, Pow2;
    WindowParts(bs, pos - back, back, left);
    Pow2Add(left, back);
    Digits(bits, Pow2(left), Pow2(back));
  }
}
