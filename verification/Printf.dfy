/**
 Formatted output, `npf_vpprintf` and `npf_vsnprintf`, with field widths and integer conversions
 but without precision, floating point or the alternate form. Arguments are a typed list, strings
 are given without their terminator, and `long`, `size_t`, `ptrdiff_t` and pointers have 64 bits.
 */
module Printf {
  import opened Words
  import opened Wrappers
  import opened Digits
  import opened FormatSpec

  // ----- arguments

  datatype Arg = Num(v: int) | Text(s: Option<string>)

  /** The argument as a number, or as a string; C leaves a mismatch undefined. */
  function NumOf(args: seq<Arg>): int {
    if args != [] && args[0].Num? then args[0].v else 0
  }

  function TextOf(args: seq<Arg>): string {
    if args != [] && args[0].Text? && args[0].s.Some? then args[0].s.value else ""
  }

  function Rest(args: seq<Arg>): seq<Arg> {
    if args == [] then [] else args[1..]
  }

  /** The number of values of the type that a length stands for. */
  function Range(l: Length): (r: nat)
    ensures 2 <= r <= 0x1_0000_0000_0000_0000 && r % 2 == 0
  {
    match l
    case Char => 0x100
    case Short => 0x1_0000
    case NoLength => 0x1_0000_0000
    case _ => 0x1_0000_0000_0000_0000
  }

  function UnsignedCast(l: Length, x: int): (v: nat)
    ensures v < Range(l) <= 0x1_0000_0000_0000_0000
    ensures 0 <= x < Range(l) ==> v == x
  {
    Residue(x, Range(l));
    x % Range(l)
  }

  function SignedCast(l: Length, x: int): (v: int)
    ensures -(Range(l) / 2) <= v < Range(l) / 2
    ensures -(Range(l) / 2) <= x < Range(l) / 2 ==> v == x
  {
    if x < 0 && -(Range(l) / 2) <= x then DivModUnique(x, Range(l), -1, x + Range(l)); Wrapped(l, x)
    else Wrapped(l, x)
  }

  function Wrapped(l: Length, x: int): int {
    var u := UnsignedCast(l, x);
    if u >= Range(l) / 2 then u - Range(l) else u
  }

  /** Absolute value through 64-bit negation. */
  function Magnitude(v: int): nat {
    if v < 0 then U64(0 - U64(v)) else U64(v)
  }

  /** The 64-bit negation is exact, also for the least number. */
  lemma MagnitudeExact(v: int)
    requires -0x8000_0000_0000_0000 <= v < 0x8000_0000_0000_0000
    ensures Magnitude(v) == if v < 0 then -v else v
  {
    if v < 0 {
      assert U64(v) == v + 0x1_0000_0000_0000_0000;
    }
  }

  // ----- fields

  /** A converted argument: its sign, its text, and how it is padded. */
  datatype Field = Field(left: bool, zero: bool, padded: bool, width: nat, sign: string, payload: string)

  function Pad(d: Field): nat {
    if d.padded && d.width > |d.payload| + |d.sign| then d.width - |d.payload| - |d.sign| else 0
  }

  /** The characters of a field. */
  function Laid(d: Field): string {
    if d.left then d.sign + d.payload + Repeat(' ', Pad(d))
    else if d.zero then d.sign + Repeat('0', Pad(d)) + d.payload
    else Repeat(' ', Pad(d)) + d.sign + d.payload
  }

  /** A field is as long as its sign and text, or as its width when that is more. */
  lemma FieldLength(d: Field)
    ensures |Laid(d)| == if d.padded && d.width > |d.sign| + |d.payload| then d.width else |d.sign| + |d.payload|
  {
  }

  /** A field appended part by part. */
  lemma LaidJoin(e: string, d: Field)
    ensures d.left && d.padded ==> e + d.sign + d.payload + Repeat(' ', Pad(d)) == e + Laid(d)
    ensures !d.padded ==> e + d.sign + d.payload == e + Laid(d)
    ensures !d.left && d.padded && d.zero ==> e + d.sign + Repeat('0', Pad(d)) + "" + d.payload == e + Laid(d)
    ensures !d.left && d.padded && !d.zero ==> e + Repeat(' ', Pad(d)) + d.sign + d.payload == e + Laid(d)
  {
  }

  // ----- reading a field back

  /** Blanks, an optional sign, digits, and whatever follows. */
  function ReadField(s: string, base: nat): int {
    if s != "" && s[0] == ' ' then ReadField(s[1..], base)
    else if s != "" && s[0] == '-' then 0 - ReadDigits(s[1..], base, 0)
    else if s != "" && s[0] == '+' then ReadDigits(s[1..], base, 0)
    else ReadDigits(s, base, 0)
  }

  lemma {:induction false} SkipBlanks(n: nat, s: string, base: nat)
    ensures ReadField(Repeat(' ', n) + s, base) == ReadField(s, base)
  {
    if n == 0 {
      assert Repeat(' ', 0) + s == s;
    } else {
      SkipBlanks(n - 1, s, base);
      assert (Repeat(' ', n) + s)[1..] == Repeat(' ', n - 1) + s;
    }
  }

  /** Digits followed by blanks. */
  lemma ReadThenBlanks(s: string, n: nat, base: nat)
    requires AllDigits(s, base) && base <= 16
    ensures ReadDigits(s + Repeat(' ', n), base, 0) == ReadDigits(s, base, 0)
  {
    ReadOn(s, Repeat(' ', n), base, 0);
  }

  predicate IsSign(s: string) {
    s == "" || s == "-" || s == "+" || s == " "
  }

  function WithSign(sign: string, v: nat): int {
    if sign == "-" then 0 - v else v
  }

  /** A sign and digits. */
  lemma ReadSigned(sign: string, s: string, base: nat)
    requires IsSign(sign) && s != "" && IsDigit(s[0], base) && base <= 16
    ensures ReadField(sign + s, base) == WithSign(sign, ReadDigits(s, base, 0))
  {
    if sign == "" {
      assert sign + s == s;
    } else {
      assert (sign + s)[0] == sign[0] && (sign + s)[1..] == s;
    }
  }

  /** Whatever the flags and the width, a number field reads back as its number. */
  lemma ReadBack(d: Field, v: nat, base: nat, upper: bool)
    requires 2 <= base <= 16 && IsSign(d.sign) && d.payload == Number(v, base, upper)
    ensures ReadField(Laid(d), base) == WithSign(d.sign, v)
  {
    var n := Pad(d);
    ReadNumber(v, base, upper);
    hide Number, ReadField, ReadDigits;
    if d.left {
      ReadThenBlanks(d.payload, n, base);
      ReadSigned(d.sign, d.payload + Repeat(' ', n), base);
      assert d.sign + d.payload + Repeat(' ', n) == d.sign + (d.payload + Repeat(' ', n));
    } else if d.zero {
      ReadZeros(n, d.payload, base);
      ReadSigned(d.sign, Repeat('0', n) + d.payload, base);
      assert d.sign + Repeat('0', n) + d.payload == d.sign + (Repeat('0', n) + d.payload);
    } else {
      ReadSigned(d.sign, d.payload, base);
      SkipBlanks(n, d.sign + d.payload, base);
      assert Repeat(' ', n) + d.sign + d.payload == Repeat(' ', n) + (d.sign + d.payload);
    }
  }

  // ----- conversions

  function Base(c: Conversion): nat {
    match c
    case Binary => 2
    case Octal => 8
    case Hex => 16
    case Pointer => 16
    case _ => 10
  }

  predicate IsUnsigned(c: Conversion) {
    c == Binary || c == Octal || c == Hex || c == Unsigned || c == Pointer
  }

  /** The value of an unsigned conversion; a pointer has no length. */
  function UnsignedValue(s: Spec, args: seq<Arg>): nat {
    UnsignedCast(if s.conv == Pointer then LongLong else s.length, NumOf(args))
  }

  function SignOf(s: Spec, v: int): string {
    if v < 0 then "-" else match s.prepend case Nothing => "" case Plus => "+" case Blank => " "
  }

  /** Sign and text of an argument. */
  function Converted(s: Spec, args: seq<Arg>): (string, string) {
    match s.conv
    case Percent => ("", "%")
    case Character => ("", if NumOf(args) % 0x100 == 0 then "" else [(NumOf(args) % 0x100) as char])
    case Str => ("", TextOf(args))
    case Signed =>
      var v := SignedCast(s.length, NumOf(args));
      (SignOf(s, v), Number(Magnitude(v), 10, s.upper))
    case WriteBack => ("", "")
    case _ => ("", Number(UnsignedValue(s, args), Base(s.conv), s.upper))
  }

  /** A star takes the width, and with its sign the justification, from the arguments. */
  function StarWidth(args: seq<Arg>): int {
    SignedCast(NoLength, NumOf(args))
  }

  function AfterWidth(s: Spec, args: seq<Arg>): seq<Arg> {
    if s.width.Star? then Rest(args) else args
  }

  function AfterField(s: Spec, args: seq<Arg>): seq<Arg> {
    if s.conv == Percent then AfterWidth(s, args) else Rest(AfterWidth(s, args))
  }

  /** The field for a specification and its arguments. */
  function FieldOf(s: Spec, args: seq<Arg>): Field {
    var w := if s.width.Star? then StarWidth(args) else if s.width.Literal? then s.width.n else 0;
    var (sign, payload) := Converted(s, AfterWidth(s, args));
    Field(s.left || w < 0, s.zero, !s.width.NoWidth?, if w < 0 then -w else w, sign, payload)
  }

  /**
   A signed conversion reads back as the number in the range of the type that agrees with its argument modulo
   the size of the type; so as its argument when that fits.
   */
  lemma SignedReadBack(s: Spec, args: seq<Arg>)
    requires s.conv == FormatSpec.Signed
    ensures var x, v, r := NumOf(AfterWidth(s, args)), ReadField(Laid(FieldOf(s, args)), 10), Range(s.length);
            -(r / 2) <= v < r / 2 && v % r == x % r && (-(r / 2) <= x < r / 2 ==> v == x)
  {
    hide Laid, Number, ReadField;
    var x := NumOf(AfterWidth(s, args));
    var v := SignedCast(s.length, x);
    CastAgrees(s.length, x);
    hide SignedCast, Range;
    MagnitudeExact(v);
    ReadBack(FieldOf(s, args), Magnitude(v), 10, s.upper);
  }

  lemma CastAgrees(l: Length, x: int)
    ensures SignedCast(l, x) % Range(l) == x % Range(l)
  {
    var r, v := Range(l), SignedCast(l, x);
    assert v == Wrapped(l, x);
    hide Range, SignedCast;
    Residue(x, r);
    if v < 0 { DivModUnique(v, r, -1, v + r); } else { Residue(v, r); }
  }

  /** So does an unsigned one: hexadecimal, octal, decimal or binary. */
  lemma UnsignedReadBack(s: Spec, args: seq<Arg>)
    ensures var t, v := Laid(FieldOf(s, args)), NumOf(AfterWidth(s, args)) % Range(s.length);
            && (s.conv == Pointer ==> ReadField(t, 16) == NumOf(AfterWidth(s, args)) % 0x1_0000_0000_0000_0000)
            && (s.conv == Hex ==> ReadField(t, 16) == v)
            && (s.conv == Octal ==> ReadField(t, 8) == v)
            && (s.conv == Unsigned ==> ReadField(t, 10) == v)
            && (s.conv == Binary ==> ReadField(t, 2) == v)
  {
    hide Laid, FieldOf, ReadField;
    if IsUnsigned(s.conv) { UnsignedBase(s, args); }
  }

  lemma UnsignedBase(s: Spec, args: seq<Arg>)
    requires IsUnsigned(s.conv)
    ensures ReadField(Laid(FieldOf(s, args)), Base(s.conv)) == UnsignedValue(s, AfterWidth(s, args))
  {
    hide Laid, Number, ReadField;
    ReadBack(FieldOf(s, args), UnsignedValue(s, AfterWidth(s, args)), Base(s.conv), s.upper);
  }

  // ----- the whole format

  /** What `%n` stores and what is printed from position `i` on, `count` characters having been printed. */
  function Rendered(f: string, i: nat, args: seq<Arg>, count: nat): (string, seq<int>)
    decreases |f| - i
  {
    if i >= |f| then ("", [])
    else if f[i] != '%' || Parse(f, i).None? then
      var (t, w) := Rendered(f, i + 1, args, count + 1);
      ([f[i]] + t, w)
    else
      ParseEnd(f, i);
      var (s, n) := Parse(f, i).value;
      var x := Laid(FieldOf(s, args));
      var (t, w) := Rendered(f, i + n, AfterField(s, args), count + |x|);
      (x + t, (if s.conv == WriteBack then [SignedCast(s.length, count)] else []) + w)
  }

  // ----- the conversion buffer

  /** A converted text: a string where it stands, a number to be printed in binary, or a reversed buffer. */
  predicate Holds(s: Spec, cbuf: seq<char>, len: nat, text: string, bin: nat, payload: string) {
    && len == |payload|
    && match s.conv
       case Str => text == payload
       case Binary => bin < 0x1_0000_0000_0000_0000 && payload == Number(bin, 2, s.upper)
       case _ => Reversed(cbuf, len, payload)
  }

  /** Extracting and converting one argument. */
  method Convert(s: Spec, args: seq<Arg>) returns (sign: string, cbuf: array<char>, len: nat, text: string, bin: nat)
    ensures sign == Converted(s, args).0 && Holds(s, cbuf[..], len, text, bin, Converted(s, args).1) && fresh(cbuf)
  {
    hide Number;
    cbuf := new char[BUFFER_SIZE];
    sign, len, text, bin := "", 0, "", 0;
    match s.conv {
      case Percent =>
        cbuf[0], len := '%', 1;
      case Character =>
        cbuf[0] := (NumOf(args) % 0x100) as char;
        len := if cbuf[0] != '\0' then 1 else 0;
      case Str =>
        text := TextOf(args);
        len := |text|;
      case Signed =>
        var v := SignedCast(s.length, NumOf(args));
        sign := SignOf(s, v);
        len := UtoaRev(Magnitude(v), cbuf, 10, s.upper);
      case WriteBack =>
      case Binary =>
        bin := UnsignedValue(s, args);
        BinLenExact(bin, s.upper);
        len := BinLen(bin);
      case _ =>
        len := UtoaRev(UnsignedValue(s, args), cbuf, Base(s.conv), s.upper);
    }
  }

  // ----- output

  /** A buffer that drops what does not fit, behind a counter. */
  class Sink {
    const dst: array<char>
    var cur: nat
    var n: nat
    ghost var emitted: string

    ghost predicate Valid()
      reads this, dst
    {
      && n == |emitted| && cur == (if n < dst.Length then n else dst.Length)
      && dst[..cur] == emitted[..cur]
    }

    constructor (dst: array<char>)
      ensures Valid() && this.dst == dst && emitted == "" && n == 0
    {
      this.dst, cur, n, emitted := dst, 0, 0, "";
    }

    /** `npf_putc_cnt` over `npf_bufputc`. */
    method Putc(c: char)
      requires Valid()
      modifies this, dst
      ensures Valid() && emitted == old(emitted) + [c]
      ensures forall k :: n <= k < dst.Length ==> dst[k] == old(dst[k])
    {
      n := n + 1;
      if cur < dst.Length {
        dst[cur] := c;
        cur := cur + 1;
      }
      emitted := emitted + [c];
    }

    method PutMany(c: char, count: nat)
      requires Valid()
      modifies this, dst
      ensures Valid() && emitted == old(emitted) + Repeat(c, count)
      ensures forall k :: n <= k < dst.Length ==> dst[k] == old(dst[k])
    {
      var i := 0;
      assert emitted == emitted + Repeat(c, 0);
      while i < count
        invariant 0 <= i <= count && Valid() && emitted == old(emitted) + Repeat(c, i)
        invariant forall k :: n <= k < dst.Length ==> dst[k] == old(dst[k])
      {
        Putc(c);
        i := i + 1;
        assert Repeat(c, i) == Repeat(c, i - 1) + [c];
      }
    }

    method PutText(s: string)
      requires Valid()
      modifies this, dst
      ensures Valid() && emitted == old(emitted) + s
      ensures forall k :: n <= k < dst.Length ==> dst[k] == old(dst[k])
    {
      var i := 0;
      while i < |s|
        invariant 0 <= i <= |s| && Valid() && emitted == old(emitted) + s[..i]
        invariant forall k :: n <= k < dst.Length ==> dst[k] == old(dst[k])
      {
        Putc(s[i]);
        i := i + 1;
      }
    }

    /** A conversion buffer, last character first. */
    method PutReversed(cbuf: array<char>, len: nat, ghost s: string)
      requires Valid() && cbuf != dst && Reversed(cbuf[..], len, s)
      modifies this, dst
      ensures Valid() && emitted == old(emitted) + s
      ensures forall k :: n <= k < dst.Length ==> dst[k] == old(dst[k])
    {
      var i := len;
      while i > 0
        invariant 0 <= i <= len && Valid() && emitted == old(emitted) + s[..len - i] && cbuf[..] == old(cbuf[..])
        invariant forall k :: n <= k < dst.Length ==> dst[k] == old(dst[k])
      {
        i := i - 1;
        assert cbuf[..][i] == s[len - 1 - i];
        Putc(cbuf[i]);
      }
    }

    /** Binary digits from the top bit down. */
    method PutBinary(u: nat, len: nat, ghost upper: bool)
      requires Valid() && u < 0x1_0000_0000_0000_0000 && len == |Number(u, 2, upper)|
      modifies this, dst
      ensures Valid() && emitted == old(emitted) + Number(u, 2, upper)
      ensures forall k :: n <= k < dst.Length ==> dst[k] == old(dst[k])
    {
      hide Number;
      ghost var s := Number(u, 2, upper);
      var i := len;
      while i > 0
        invariant 0 <= i <= len && Valid() && emitted == old(emitted) + s[..len - i]
        invariant forall k :: n <= k < dst.Length ==> dst[k] == old(dst[k])
      {
        i := i - 1;
        BinaryDigit(u, i, upper);
        Putc(('0' as int + Bit(u, i)) as char);
      }
    }
  
    method PutPayload(s: Spec, cbuf: array<char>, len: nat, text: string, bin: nat, ghost payload: string)
      requires Valid() && cbuf != dst && Holds(s, cbuf[..], len, text, bin, payload)
      modifies this, dst
      ensures Valid() && emitted == old(emitted) + payload
      ensures forall k :: n <= k < dst.Length ==> dst[k] == old(dst[k])
    {
      if s.conv == Str {
        PutText(text);
      } else if s.conv == Binary {
        PutBinary(bin, len, s.upper);
      } else {
        PutReversed(cbuf, len, payload);
      }
    }

    /** One conversion: star arguments, conversion, padding and text. */
    method PutField(s: Spec, args: seq<Arg>) returns (rest: seq<Arg>)
      requires Valid()
      modifies this, dst
      ensures Valid() && emitted == old(emitted) + Laid(FieldOf(s, args)) && rest == AfterField(s, args)
      ensures forall k :: n <= k < dst.Length ==> dst[k] == old(dst[k])
    {
      hide Converted, Number, Repeat;
      rest := args;
      var left, width: nat := s.left, 0;
      if s.width.Star? {
        var w := StarWidth(rest);
        rest := Rest(rest);
        if w < 0 {
          width, left := -w, true;
        } else {
          width := w;
        }
      } else if s.width.Literal? {
        width := s.width.n;
      }
      var sign, cbuf, len, text, bin := Convert(s, rest);
      ghost var d := FieldOf(s, args);
      if s.conv != Percent { rest := Rest(rest); }
      PutPadded(s, left, width, sign, cbuf, len, text, bin, d);
    }

    /** Padding, sign and text in the order that the flags ask for. */
    method PutPadded(s: Spec, left: bool, width: nat, sign0: string, cbuf: array<char>, len: nat, text: string, bin: nat,
                     ghost d: Field)
      requires Valid() && cbuf != dst && Holds(s, cbuf[..], len, text, bin, d.payload)
      requires d == Field(left, s.zero, !s.width.NoWidth?, width, sign0, d.payload) && (s.width.NoWidth? ==> width == 0)
      modifies this, dst
      ensures Valid() && emitted == old(emitted) + Laid(d)
      ensures forall k :: n <= k < dst.Length ==> dst[k] == old(dst[k])
    {
      LaidJoin(emitted, d);
      hide Repeat, Laid;
      var sign := sign0;
      var padded := !s.width.NoWidth?;
      var pad: nat := if width > len + |sign| then width - len - |sign| else 0;
      if !left && padded {
        if s.zero {
          PutText(sign);
          sign := "";
        }
        PutMany(if s.zero then '0' else ' ', pad);
      }
      PutText(sign);
      PutPayload(s, cbuf, len, text, bin, d.payload);
      if left && padded { PutMany(' ', pad); }
    }
  }

  /** `npf_vpprintf`: everything is printed and counted, and `%n` stores the count so far. */
  method Vpprintf(out: Sink, f: string, args: seq<Arg>) returns (n: nat, writes: seq<int>)
    requires out.Valid() && out.n == 0
    modifies out, out.dst
    ensures out.Valid() && n == out.n && (out.emitted, writes) == Rendered(f, 0, args, 0)
    ensures forall k :: n <= k < out.dst.Length ==> out.dst[k] == old(out.dst[k])
  {
    hide Parse, Laid, FieldOf, AfterField, SignedCast;
    var cur, rest := 0, args;
    writes := [];
    JoinedUnit(Rendered(f, 0, args, 0));
    while cur < |f|
      invariant 0 <= cur <= |f| && out.Valid()
      invariant Rendered(f, 0, args, 0) == Joined((out.emitted, writes), Rendered(f, cur, rest, out.n))
      invariant forall k :: out.n <= k < out.dst.Length ==> out.dst[k] == old(out.dst[k])
    {
      var spec, len := PLAIN, 0;
      if f[cur] == '%' { spec, len := ParseFormatSpec(f, cur); }
      ParseEnd(f, cur);
      ghost var was := (out.emitted, writes);
      if len == 0 {
        CharStep(f, cur, rest, out.n);
        JoinedStep(was, ([f[cur]], []), Rendered(f, cur + 1, rest, out.n + 1));
        assert writes + [] == writes;
        out.Putc(f[cur]);
        cur := cur + 1;
      } else {
        ghost var stored := if spec.conv == WriteBack then [SignedCast(spec.length, out.n)] else [];
        ghost var text := Laid(FieldOf(spec, rest));
        FieldStep(f, cur, rest, out.n);
        JoinedStep(was, (text, stored), Rendered(f, cur + len, AfterField(spec, rest), out.n + |text|));
        assert writes + stored == if spec.conv == WriteBack then writes + [SignedCast(spec.length, out.n)] else writes;
        if spec.conv == WriteBack { writes := writes + [SignedCast(spec.length, out.n)]; }
        rest := out.PutField(spec, rest);
        cur := cur + len;
      }
    }
    JoinedUnit((out.emitted, writes));
    n := out.n;
  }

  function Joined(a: (string, seq<int>), b: (string, seq<int>)): (string, seq<int>) {
    (a.0 + b.0, a.1 + b.1)
  }

  lemma JoinedStep(a: (string, seq<int>), b: (string, seq<int>), c: (string, seq<int>))
    ensures Joined(a, Joined(b, c)) == Joined(Joined(a, b), c)
  {
    assert a.0 + (b.0 + c.0) == (a.0 + b.0) + c.0;
    assert a.1 + (b.1 + c.1) == (a.1 + b.1) + c.1;
  }

  lemma JoinedUnit(a: (string, seq<int>))
    ensures Joined(("", []), a) == a && Joined(a, ("", [])) == a
  {
    assert "" + a.0 == a.0 && a.0 + "" == a.0;
    assert [] + a.1 == a.1 && a.1 + [] == a.1;
  }

  lemma CharStep(f: string, i: nat, args: seq<Arg>, count: nat)
    requires i < |f| && (f[i] != '%' || Parse(f, i).None?)
    ensures Rendered(f, i, args, count) == Joined(([f[i]], []), Rendered(f, i + 1, args, count + 1))
  {
    var t := Rendered(f, i + 1, args, count + 1);
    assert [] + t.1 == t.1;
  }

  lemma FieldStep(f: string, i: nat, args: seq<Arg>, count: nat)
    requires i < |f| && f[i] == '%' && Parse(f, i).Some?
    ensures var (s, n) := Parse(f, i).value;
            var x := Laid(FieldOf(s, args));
            Rendered(f, i, args, count)
              == Joined((x, if s.conv == WriteBack then [SignedCast(s.length, count)] else []),
                        Rendered(f, i + n, AfterField(s, args), count + |x|))
  {
    hide Parse, Laid, FieldOf, AfterField, SignedCast;
  }

  /** The text of a specification prints its field. */
  lemma PrintOne(s: Spec, args: seq<Arg>)
    requires Showable(s)
    ensures Rendered(Show(s), 0, args, 0).0 == Laid(FieldOf(s, args))
  {
    var f := Show(s);
    assert f[0] == '%' && f[0..|f|] == f;
    ParseShow(f, 0, s);
    FieldStep(f, 0, args, 0);
    hide Parse, Laid, FieldOf, Show;
    assert Laid(FieldOf(s, args)) + "" == Laid(FieldOf(s, args));
  }

  /** Printing a number of the right type and reading the result gives the number back. */
  lemma PrintReadBack(s: Spec, x: int)
    requires Showable(s) && !s.width.Star?
    requires (s.conv == FormatSpec.Signed && -(Range(s.length) / 2) <= x < Range(s.length) / 2)
          || (s.conv in {Unsigned, Octal, Hex, Binary} && 0 <= x < Range(s.length))
    ensures var base := if s.conv == Hex then 16 else if s.conv == Octal then 8 else if s.conv == Binary then 2 else 10;
            ReadField(Rendered(Show(s), 0, [Num(x)], 0).0, base) == x
  {
    hide Rendered, Laid, FieldOf, Show, ReadField;
    PrintOne(s, [Num(x)]);
    if s.conv == FormatSpec.Signed {
      SignedReadBack(s, [Num(x)]);
    } else {
      UnsignedReadBack(s, [Num(x)]);
    }
  }

  /**
   `npf_vsnprintf`: the length of the whole text is returned, and the buffer holds as much of it
   as leaves room for a terminator, the terminator, and then what it held before.
   */
  method Vsnprintf(dst: array<char>, f: string, args: seq<Arg>) returns (n: nat, writes: seq<int>)
    modifies dst
    ensures n == |Rendered(f, 0, args, 0).0| && writes == Rendered(f, 0, args, 0).1
    ensures dst.Length > 0 ==>
      var m := if n < dst.Length - 1 then n else dst.Length - 1;
      && dst[..m] == Rendered(f, 0, args, 0).0[..m] && dst[m] == '\0'
      && dst[m + 1..] == old(dst[m + 1..])
  {
    hide Rendered;
    var out := new Sink(dst);
    n, writes := Vpprintf(out, f, args);
    ghost var text := out.emitted;
    if dst.Length > 0 {
      var m := if n < dst.Length - 1 then n else dst.Length - 1;
      assert dst[..m] == dst[..out.cur][..m] == text[..out.cur][..m] == text[..m];
      dst[m] := '\0';
    }
  }
}
