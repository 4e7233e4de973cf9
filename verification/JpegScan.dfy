/**
 Whole entropy-coded scans: an encoder for runs and values, with byte stuffing, whose output the
 decoder of `Huffman` reads back token by token.
 */
module JpegScan {
  import opened Words
  import opened JpegBits
  import opened Huffman

  // ----- bits

  predicate IsBits(b: seq<nat>) {
    forall k :: 0 <= k < |b| ==> b[k] < 2
  }

  /** The `n` low-order bits of a number, most significant first. */
  function Bits(v: nat, n: nat): (b: seq<nat>)
    ensures |b| == n && IsBits(b)
  {
    if n == 0 then [] else Bits(v / 2, n - 1) + [v % 2]
  }

  /** The number that some bits stand for. */
  function Value(b: seq<nat>): nat {
    if b == [] then 0 else 2 * Value(b[..|b| - 1]) + b[|b| - 1]
  }

  lemma {:induction false} ValueOfBits(v: nat, n: nat)
    requires v < Pow2(n)
    ensures Value(Bits(v, n)) == v
  {
    if n == 0 {
    } else {
      ValueOfBits(v / 2, n - 1);
      assert Bits(v, n)[..n - 1] == Bits(v / 2, n - 1);
    }
  }

  /** Bit `k` of the number is bit `k` of the sequence. */
  lemma {:induction false} BitOfValue(b: seq<nat>, k: nat)
    requires IsBits(b) && k < |b|
    ensures Value(b) / Pow2(|b| - 1 - k) % 2 == b[k]
  {
    var n := |b| - 1;
    var init := b[..n];
    if k == n {
      DivModUnique(Value(b), 1, Value(b), 0);
      Double(Value(init), b[n]);
    } else {
      BitOfValue(init, k);
      Halve(Value(init), b[n], n - 1 - k);
    }
  }

  lemma Halve(x: nat, bit: nat, k: nat)
    requires bit < 2
    ensures (2 * x + bit) / Pow2(k + 1) == x / Pow2(k)
  {
    var p := Pow2(k);
    Euclid(x, p);
    assert (x / p) * (2 * p) == 2 * (x / p * p);
    DivModUnique(2 * x + bit, 2 * p, x / p, 2 * (x % p) + bit);
  }

  // ----- bytes

  /** Bits in bytes, the last one filled up with ones. */
  function Packed(b: seq<nat>): (bs: seq<nat>) {
    if b == [] then []
    else if |b| < 8 then [Value(b + seq(8 - |b|, _ => 1))]
    else [Value(b[..8])] + Packed(b[8..])
  }

  lemma BitOfNext(byte: nat, bs: seq<nat>, n: nat)
    requires n >= 8
    ensures Bit([byte] + bs, n) == Bit(bs, n - 8)
  {
    assert n / 8 == (n - 8) / 8 + 1 && n % 8 == (n - 8) % 8;
  }

  /** Packing keeps every bit in its place. */
  lemma {:induction false} BitOfPacked(b: seq<nat>, k: nat)
    requires IsBits(b) && k < |b|
    ensures Bit(Packed(b), k) == b[k]
  {
    var first := if |b| < 8 then b + seq(8 - |b|, _ => 1) else b[..8];
    if k < 8 {
      assert IsBits(first) && first[k] == b[k];
      BitOfValue(first, k);
    } else {
      BitOfPacked(b[8..], k - 8);
      BitOfNext(Value(first), Packed(b[8..]), k);
    }
  }

  /** So a window of the bytes is the number that the bits stand for. */
  lemma {:induction false} WindowOfPacked(b: seq<nat>, pos: nat, n: nat)
    requires IsBits(b) && pos + n <= |b|
    ensures Window(Packed(b), pos, n) == Value(b[pos..pos + n])
  {
    if n == 0 {
    } else {
      hide Packed, Bit, IsBits;
      WindowOfPacked(b, pos, n - 1);
      BitOfPacked(b, pos + n - 1);
      var w := b[pos..pos + n];
      assert w[..n - 1] == b[pos..pos + n - 1] && w[n - 1] == b[pos + n - 1];
    }
  }

  /** A zero byte after every 0xff. */
  function Stuffed(bs: seq<nat>): seq<nat> {
    if bs == [] then [] else (if bs[0] == 0xff then [0xff, 0] else [bs[0]]) + Stuffed(bs[1..])
  }

  /** The reader's view of a stuffed payload, up to the marker after it, is the payload. */
  lemma {:induction false} StuffedPayload(bs: seq<nat>, data: seq<nat>, p: nat)
    requires p <= |data| && |data[p..]| >= |Stuffed(bs)| + 2 && data[p..][..|Stuffed(bs)|] == Stuffed(bs)
    requires data[p + |Stuffed(bs)|] == 0xff && data[p + |Stuffed(bs)| + 1] != 0
    ensures Payload(data, p) == bs && Terminated(data, p)
    decreases |bs|
  {
    var t := Stuffed(bs);
    if bs == [] {
    } else {
      var n := if bs[0] == 0xff then 2 else 1;
      assert data[p] == t[0] && (n == 2 ==> data[p + 1] == t[1]);
      var rest := Stuffed(bs[1..]);
      assert rest == t[n..] && data[p + n..][..|rest|] == data[p..][..|t|][n..];
      StuffedPayload(bs[1..], data, p + n);
    }
  }

  // ----- tokens

  /** A token's code and value bits. */
  function TokenBits(len: seq<nat>, t: Token): (b: seq<nat>)
    requires t.i < |len|
    ensures IsBits(b) && |b| == t.i + 1 + Category(Abs(t.value))
  {
    Bits(FirstCode(len, t.i) + t.j, t.i + 1) + Bits(ValueBits(t.value), Category(Abs(t.value)))
  }

  predicate AllEncodable(len: seq<nat>, hv: seq<nat>, ts: seq<Token>)
    requires Spec(len, hv)
  {
    forall k :: 0 <= k < |ts| ==> Encodable(len, hv, ts[k])
  }

  predicate InLengths(len: seq<nat>, ts: seq<Token>) {
    forall k :: 0 <= k < |ts| ==> ts[k].i < |len|
  }

  function ScanBits(len: seq<nat>, ts: seq<Token>): (b: seq<nat>)
    requires InLengths(len, ts)
    ensures IsBits(b)
  {
    if ts == [] then [] else ScanBits(len, ts[..|ts| - 1]) + TokenBits(len, ts[|ts| - 1])
  }

  lemma SliceOfConcat(a: seq<nat>, b: seq<nat>, i: nat, j: nat)
    requires i <= j <= |a|
    ensures (a + b)[i..j] == a[i..j]
  {
  }

  lemma ScanSnoc(len: seq<nat>, ts: seq<Token>)
    requires InLengths(len, ts) && ts != []
    ensures var n := |ts| - 1; ScanBits(len, ts) == ScanBits(len, ts[..n]) + TokenBits(len, ts[n])
  {
  }

  lemma {:induction false} ScanParts(len: seq<nat>, ts: seq<Token>, k: nat)
    requires InLengths(len, ts) && k < |ts|
    ensures var before, b := ScanBits(len, ts[..k]), TokenBits(len, ts[k]);
            && |before| + |b| <= |ScanBits(len, ts)|
            && ScanBits(len, ts)[|before|..|before| + |b|] == b
  {
    hide ScanBits, TokenBits;
    var n := |ts| - 1;
    var before, b := ScanBits(len, ts[..k]), TokenBits(len, ts[k]);
    ScanSnoc(len, ts);
    if k < n {
      ScanParts(len, ts[..n], k);
      assert ts[..n][..k] == ts[..k];
      SliceOfConcat(ScanBits(len, ts[..n]), TokenBits(len, ts[n]), |before|, |before| + |b|);
    }
  }

  /** The scan as it stands in the file: packed, stuffed and followed by a marker and anything else. */
  predicate IsScan(data: seq<nat>, len: seq<nat>, ts: seq<Token>)
    requires InLengths(len, ts)
  {
    var t := Stuffed(Packed(ScanBits(len, ts)));
    && |data| >= |t| + 2 && data[..|t|] == t && data[|t|] == 0xff && data[|t| + 1] != 0
  }

  lemma CodeBits(len: seq<nat>, hv: seq<nat>, t: Token)
    requires Spec(len, hv) && Encodable(len, hv, t)
    ensures t.i < |len| && FirstCode(len, t.i) + t.j < Pow2(t.i + 1)
  {
    hide Symbol, Category;
    CodeBound(len, t.i);
  }

  /**
   Every token of a scan is what the decoder finds at its place, so that calling it once for each token
   returns the runs and values that were encoded.
   */
  lemma ScanRoundTrip(data: seq<nat>, len: seq<nat>, hv: seq<nat>, ts: seq<Token>, k: nat)
    requires Spec(len, hv) && AllEncodable(len, hv, ts) && k < |ts| && IsScan(data, len, ts)
    ensures Terminated(data, 0) && Payload(data, 0) == Packed(ScanBits(len, ts))
    ensures Written(Payload(data, 0), |ScanBits(len, ts[..k])|, len, hv, ts[k])
    ensures |ScanBits(len, ts[..k + 1])| == |ScanBits(len, ts[..k])| + ts[k].i + 1 + Category(Abs(ts[k].value))
  {
    hide Symbol, Packed, Stuffed, Bits, Payload, Terminated, Window, FirstCode, Category, ValueBits;
    var b := ScanBits(len, ts);
    assert data[0..] == data;
    StuffedPayload(Packed(b), data, 0);
    var t, pos := ts[k], |ScanBits(len, ts[..k])|;
    ScanParts(len, ts, k);
    assert ts[..k + 1][..k] == ts[..k];
    TokenWritten(b, pos, len, hv, t);
  }

  lemma TokenWritten(b: seq<nat>, pos: nat, len: seq<nat>, hv: seq<nat>, t: Token)
    requires Spec(len, hv) && Encodable(len, hv, t) && IsBits(b) && pos + |TokenBits(len, t)| <= |b|
    requires b[pos..pos + |TokenBits(len, t)|] == TokenBits(len, t)
    ensures Written(Packed(b), pos, len, hv, t)
  {
    hide Spec, Encodable, IsBits, Packed, Bits, Window, FirstCode, Category, ValueBits, Value, Abs;
    var n, c := t.i + 1, Category(Abs(t.value));
    CodeBits(len, hv, t);
    var code, value := Bits(FirstCode(len, t.i) + t.j, n), Bits(ValueBits(t.value), c);
    ExtendValue(t.value);
    TwoParts(b, pos, code, value);
    ValueOfBits(FirstCode(len, t.i) + t.j, n);
    ValueOfBits(ValueBits(t.value), c);
    WindowOfPacked(b, pos, n);
    WindowOfPacked(b, pos + n, c);
  }

  lemma TwoParts(b: seq<nat>, pos: nat, x: seq<nat>, y: seq<nat>)
    requires pos + |x| + |y| <= |b| && b[pos..pos + |x| + |y|] == x + y
    ensures b[pos..pos + |x|] == x && b[pos + |x|..pos + |x| + |y|] == y
  {
    var s := b[pos..pos + |x| + |y|];
    assert b[pos..pos + |x|] == s[..|x|] && b[pos + |x|..pos + |x| + |y|] == s[|x|..];
  }
}
