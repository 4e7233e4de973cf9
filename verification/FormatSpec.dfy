/** Conversion specifications of a format string, `npf_parse_format_spec`. */
module FormatSpec {
  import opened Wrappers
  import opened Digits
  import opened Seqs

  datatype Length = NoLength | Short | Char | Long | LongLong | IntMax | SizeT | PtrDiff

  datatype Conversion = Percent | Character | Str | Signed | Binary | Octal | Hex | Unsigned | Pointer | WriteBack

  datatype Width = NoWidth | Literal(n: nat) | Star

  /** `prepend` is the sign of a number that is not negative. */
  datatype Prepend = Nothing | Plus | Blank

  datatype Spec = Spec(left: bool, zero: bool, prepend: Prepend, width: Width, length: Length,
                       conv: Conversion, upper: bool)

  /** The character at `i`, or the terminator. */
  function At(f: string, i: nat): char {
    if i < |f| then f[i] else '\0'
  }

  // ----- flags

  function Flagged(s: Spec, c: char): Spec {
    match c
    case '-' => s.(left := true)
    case '0' => s.(zero := true)
    case '+' => s.(prepend := Plus)
    case _ => if s.prepend == Nothing then s.(prepend := Blank) else s
  }

  predicate IsFlag(c: char) {
    c == '-' || c == '0' || c == '+' || c == ' '
  }

  function Flags(f: string, i: nat, s: Spec): (Spec, nat)
    decreases |f| - i
  {
    if i < |f| && IsFlag(f[i]) then Flags(f, i + 1, Flagged(s, f[i])) else (s, i)
  }

  // ----- width

  predicate IsDecimal(c: char) {
    '0' <= c <= '9'
  }

  function LiteralWidth(f: string, i: nat, w: Width): (Width, nat)
    requires !w.Star?
    decreases |f| - i
  {
    if i < |f| && IsDecimal(f[i])
    then LiteralWidth(f, i + 1, Literal((if w.Literal? then w.n else 0) * 10 + DigitValue(f[i])))
    else (w, i)
  }

  function ParseWidth(f: string, i: nat): (Width, nat) {
    if At(f, i) == '*' then (Star, i + 1) else LiteralWidth(f, i, NoWidth)
  }

  // ----- length and conversion

  function ParseLength(f: string, i: nat): (Length, nat) {
    match At(f, i)
    case 'h' => if At(f, i + 1) == 'h' then (Char, i + 2) else (Short, i + 1)
    case 'l' => if At(f, i + 1) == 'l' then (LongLong, i + 2) else (Long, i + 1)
    case 'j' => (IntMax, i + 1)
    case 'z' => (SizeT, i + 1)
    case 't' => (PtrDiff, i + 1)
    case _ => (NoLength, i)
  }

  function ParseConversion(c: char): Option<(Conversion, bool)> {
    match c
    case '%' => Some((Percent, false))
    case 'c' => Some((Character, false))
    case 's' => Some((Str, false))
    case 'i' => Some((Signed, false))
    case 'd' => Some((Signed, false))
    case 'o' => Some((Octal, false))
    case 'u' => Some((Unsigned, false))
    case 'X' => Some((Hex, true))
    case 'x' => Some((Hex, false))
    case 'n' => Some((WriteBack, false))
    case 'p' => Some((Pointer, false))
    case 'B' => Some((Binary, true))
    case 'b' => Some((Binary, false))
    case _ => None
  }

  const PLAIN: Spec := Spec(false, false, Nothing, NoWidth, NoLength, Percent, false)

  /** The specification that starts with the percent sign at `i` and its length, if it is well formed. */
  function Parse(f: string, i: nat): (r: Option<(Spec, nat)>)
    requires i < |f|
  {
    FlagsEnd(f, i + 1, PLAIN);
    var (s, a) := Flags(f, i + 1, PLAIN);
    WidthEnd(f, a, NoWidth);
    var (w, b) := ParseWidth(f, a);
    var (l, c) := ParseLength(f, b);
    var v := ParseConversion(At(f, c));
    if v.None? then None
    else Some((s.(width := w, length := l, conv := v.value.0, upper := v.value.1), c + 1 - i))
  }

  lemma {:induction false} FlagsEnd(f: string, i: nat, s: Spec)
    requires i <= |f|
    ensures i <= Flags(f, i, s).1 <= |f|
    decreases |f| - i
  {
    if i < |f| && IsFlag(f[i]) { FlagsEnd(f, i + 1, Flagged(s, f[i])); }
  }

  lemma {:induction false} WidthEnd(f: string, i: nat, w: Width)
    requires i <= |f| && !w.Star?
    ensures i <= LiteralWidth(f, i, w).1 <= |f|
    decreases |f| - i
  {
    if i < |f| && IsDecimal(f[i]) {
      WidthEnd(f, i + 1, Literal((if w.Literal? then w.n else 0) * 10 + DigitValue(f[i])));
    }
  }

  /** A specification lies inside the string and has at least two characters. */
  lemma ParseEnd(f: string, i: nat)
    requires i < |f|
    ensures Parse(f, i).Some? ==> 2 <= Parse(f, i).value.1 && i + Parse(f, i).value.1 <= |f|
  {
    FlagsEnd(f, i + 1, PLAIN);
    var a := Flags(f, i + 1, PLAIN).1;
    WidthEnd(f, a, NoWidth);
  }

  /** `npf_parse_format_spec`; the length is zero when there is no specification. */
  method ParseFormatSpec(f: string, start: nat) returns (spec: Spec, len: nat)
    requires start < |f| && f[start] == '%'
    ensures Parse(f, start) == if len == 0 then None else Some((spec, len))
  {
    ParseEnd(f, start);
    spec := PLAIN;
    var cur := start + 1;
    while cur < |f| && IsFlag(f[cur])
      invariant start < cur <= |f| && Flags(f, cur, spec) == Flags(f, start + 1, PLAIN)
    {
      spec := Flagged(spec, f[cur]);
      cur := cur + 1;
    }
    ghost var a := cur;
    var width := NoWidth;
    if At(f, cur) == '*' {
      width := Star;
      cur := cur + 1;
    } else {
      while cur < |f| && IsDecimal(f[cur])
        invariant a <= cur <= |f| && !width.Star? && LiteralWidth(f, cur, width) == LiteralWidth(f, a, NoWidth)
      {
        width := Literal((if width.Literal? then width.n else 0) * 10 + DigitValue(f[cur]));
        cur := cur + 1;
      }
    }
    assert (width, cur) == ParseWidth(f, a);
    var (length, next) := ParseLength(f, cur);
    var v := ParseConversion(At(f, next));
    if v.None? { return spec, 0; }
    spec := spec.(width := width, length := length, conv := v.value.0, upper := v.value.1);
    len := next + 1 - start;
  }

  // ----- writing a specification

  function ShowLength(l: Length): string {
    match l
    case NoLength => ""
    case Short => "h"
    case Char => "hh"
    case Long => "l"
    case LongLong => "ll"
    case IntMax => "j"
    case SizeT => "z"
    case PtrDiff => "t"
  }

  function ShowConversion(c: Conversion, upper: bool): char {
    match c
    case Percent => '%'
    case Character => 'c'
    case Str => 's'
    case Signed => 'd'
    case Octal => 'o'
    case Unsigned => 'u'
    case Hex => if upper then 'X' else 'x'
    case WriteBack => 'n'
    case Pointer => 'p'
    case Binary => if upper then 'B' else 'b'
  }

  function ShowWidth(w: Width): string {
    match w
    case NoWidth => ""
    case Star => "*"
    case Literal(n) => Number(n, 10, false)
  }

  function ShowFlags(s: Spec): string {
    (if s.left then "-" else "") + (if s.zero then "0" else "")
    + (match s.prepend case Nothing => "" case Plus => "+" case Blank => " ")
  }

  /** Specifications that have a text of their own: a literal width of zero would read as a flag. */
  predicate Showable(s: Spec) {
    && (s.upper ==> s.conv == Hex || s.conv == Binary)
    && s.width != Literal(0)
  }

  function Show(s: Spec): string {
    "%" + ShowFlags(s) + ShowWidth(s.width) + ShowLength(s.length) + [ShowConversion(s.conv, s.upper)]
  }

  /** Whatever follows, a run of decimal digits is read as the number it shows. */
  lemma {:induction false} WidthShown(f: string, i: nat, x: string, w: Width)
    requires !w.Star? && (x != "" || w.Literal?) && AllDigits(x, 10)
    requires i + |x| <= |f| && f[i..i + |x|] == x && !IsDecimal(At(f, i + |x|))
    ensures LiteralWidth(f, i, w) == (Literal(ReadDigits(x, 10, if w.Literal? then w.n else 0)), i + |x|)
    decreases |x|
  {
    if x != "" {
      assert f[i] == x[0] && IsDecimal(f[i]);
      assert f[i + 1..i + 1 + |x[1..]|] == x[1..];
      WidthShown(f, i + 1, x[1..], Literal((if w.Literal? then w.n else 0) * 10 + DigitValue(f[i])));
    }
  }

  lemma FlagStep(f: string, i: nat, s: Spec)
    requires i < |f| && IsFlag(f[i])
    ensures Flags(f, i, s) == Flags(f, i + 1, Flagged(s, f[i]))
  {
  }

  lemma FlagsStop(f: string, i: nat, s: Spec)
    requires !IsFlag(At(f, i))
    ensures Flags(f, i, s) == (s, i)
  {
  }

  lemma FlagsShown(f: string, i: nat, s: Spec)
    requires i + |ShowFlags(s)| <= |f| && f[i..i + |ShowFlags(s)|] == ShowFlags(s) && !IsFlag(At(f, i + |ShowFlags(s)|))
    ensures Flags(f, i, PLAIN) == (PLAIN.(left := s.left, zero := s.zero, prepend := s.prepend), i + |ShowFlags(s)|)
  {
    hide Flags;
    var g := ShowFlags(s);
    assert forall k :: 0 <= k < |g| ==> f[i + k] == g[k];
    var j, t := i, PLAIN;
    if s.left {
      FlagStep(f, j, t);
      j, t := j + 1, t.(left := true);
    }
    if s.zero {
      FlagStep(f, j, t);
      j, t := j + 1, t.(zero := true);
    }
    if s.prepend != Nothing {
      FlagStep(f, j, t);
      j, t := j + 1, t.(prepend := s.prepend);
    }
    FlagsStop(f, j, t);
  }

  /** The first character of a width that is a number is neither a flag nor a star. */
  lemma NumberStart(n: nat)
    requires n > 0
    ensures AllDigits(Number(n, 10, false), 10) && ReadDigits(Number(n, 10, false), 10, 0) == n
    ensures !IsFlag(Number(n, 10, false)[0]) && Number(n, 10, false)[0] != '*'
  {
    ReadNumber(n, 10, false);
    assert IsDigit(Number(n, 10, false)[0], 10);
  }

  /** The text of a length and a conversion is read back. */
  lemma TailShown(f: string, i: nat, l: Length, c: Conversion, upper: bool)
    requires upper ==> c == Hex || c == Binary
    requires i + |ShowLength(l)| < |f| && f[i..i + |ShowLength(l)|] == ShowLength(l)
    requires f[i + |ShowLength(l)|] == ShowConversion(c, upper)
    ensures ParseLength(f, i) == (l, i + |ShowLength(l)|)
    ensures ParseConversion(At(f, i + |ShowLength(l)|)) == Some((c, upper))
    ensures !IsFlag(f[i]) && !IsDecimal(f[i]) && f[i] != '*'
  {
    var g := ShowLength(l);
    var x := f[i..i + |g|];
    assert |g| > 0 ==> f[i] == x[0] && x[0] == g[0];
    assert |g| > 1 ==> f[i + 1] == x[1] && x[1] == g[1];
  }

  lemma WidthOfShown(f: string, i: nat, w: Width)
    requires w != Literal(0) && i + |ShowWidth(w)| < |f| && f[i..i + |ShowWidth(w)|] == ShowWidth(w)
    requires !IsDecimal(f[i + |ShowWidth(w)|]) && !IsFlag(f[i + |ShowWidth(w)|]) && f[i + |ShowWidth(w)|] != '*'
    ensures ParseWidth(f, i) == (w, i + |ShowWidth(w)|) && !IsFlag(f[i])
  {
    hide Number;
    var g := ShowWidth(w);
    var x := f[i..i + |g|];
    assert |g| > 0 ==> f[i] == x[0] && x[0] == g[0];
    if w.Literal? {
      NumberStart(w.n);
      WidthShown(f, i, g, NoWidth);
    }
  }

  /** Parsing undoes `Show`, wherever the text stands and whatever follows it. */
  lemma ParseShow(f: string, i: nat, s: Spec)
    requires Showable(s) && i + |Show(s)| <= |f| && f[i..i + |Show(s)|] == Show(s)
    ensures Parse(f, i) == Some((s, |Show(s)|))
  {
    hide Flags, ParseWidth, ParseLength, ParseConversion, ShowFlags, ShowWidth, ShowLength, ShowConversion;
    var a, w, l := ShowFlags(s), ShowWidth(s.width), ShowLength(s.length);
    Parts(f, i, a, w, l, ShowConversion(s.conv, s.upper));
    var q := i + 1 + |a|;
    TailShown(f, q + |w|, s.length, s.conv, s.upper);
    WidthOfShown(f, q, s.width);
    FlagsShown(f, i + 1, s);
  }

  lemma Parts(f: string, i: nat, a: string, w: string, l: string, c: char)
    requires i + |a| + |w| + |l| + 2 <= |f| && f[i..i + |a| + |w| + |l| + 2] == "%" + a + w + l + [c]
    ensures var q := i + 1 + |a|; var r := q + |w|;
            f[i + 1..q] == a && f[q..r] == w && f[r..r + |l|] == l && f[r + |l|] == c
  {
    var q := i + 1 + |a|;
    var r := q + |w|;
    var g := f[i..i + |a| + |w| + |l| + 2];
    SliceOfSlice(f, i, |g|, 1, |a|);
    SliceOfSlice(f, i, |g|, 1 + |a|, |w|);
    SliceOfSlice(f, i, |g|, 1 + |a| + |w|, |l|);
    assert g[1..1 + |a|] == a && g[1 + |a|..1 + |a| + |w|] == w && g[1 + |a| + |w|..1 + |a| + |w| + |l|] == l;
    assert f[r + |l|] == g[|g| - 1];
  }
}
