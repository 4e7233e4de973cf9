/**
 What formatted output looks like, in the letters of the format and of the text: the meaning of
 flags, widths, lengths and conversion letters.
 */
module PrintfLaws {
  import opened Words
  import opened Wrappers
  import opened Digits
  import opened FormatSpec
  import opened Printf

  // ----- the letters of a number

  const LOWER := "0123456789abcdef"
  const UPPER := "0123456789ABCDEF"

  lemma DigitLetter(d: nat, upper: bool)
    requires d < 16
    ensures DigitChar(d, upper) == (if upper then UPPER else LOWER)[d]
  {
  }

  /** A number is written with the first `base` digits of its alphabet. */
  lemma {:induction false} NumberLetters(v: nat, base: nat, upper: bool, k: nat)
    requires 2 <= base <= 16 && k < |Number(v, base, upper)|
    ensures Number(v, base, upper)[k] in (if upper then UPPER else LOWER)[..base]
    decreases v
  {
    QuotientSmaller(v, base);
    var d := v % base;
    if k == |Number(v, base, upper)| - 1 {
      DigitLetter(d, upper);
      var t := (if upper then UPPER else LOWER)[..base];
      assert t[d] == DigitChar(d, upper);
    } else {
      NumberLetters(v / base, base, upper, k);
    }
  }

  // ----- flags, width and length

  ghost predicate AllFlags(t: string) {
    forall k :: 0 <= k < |t| ==> t[k] in "-0+ "
  }

  /** The flags of a specification are those that occur, in any order and number; a plus overrides a blank. */
  ghost predicate HasFlags(s: Spec, t: string) {
    && (s.left <==> '-' in t) && (s.zero <==> '0' in t)
    && (s.prepend == Plus <==> '+' in t) && (s.prepend == Blank <==> ' ' in t && '+' !in t)
  }

  lemma FlagLetter(c: char)
    ensures IsFlag(c) <==> c in "-0+ "
  {
  }

  lemma FlaggedSnoc(s: Spec, t: string, c: char)
    requires HasFlags(s, t) && IsFlag(c)
    ensures HasFlags(Flagged(s, c), t + [c])
  {
    assert forall x :: x in t + [c] <==> x in t || x == c;
  }

  lemma {:induction false} FlagsMean(f: string, i: nat, s: Spec, t: string)
    requires i <= |f| && HasFlags(s, t) && AllFlags(t)
    ensures var r := Flags(f, i, s);
            && i <= r.1 <= |f| && HasFlags(r.0, t + f[i..r.1]) && AllFlags(t + f[i..r.1]) && At(f, r.1) !in "-0+ "
    ensures Flags(f, i, s).0.(left := s.left, zero := s.zero, prepend := s.prepend) == s
    decreases |f| - i
  {
    FlagLetter(At(f, i));
    if i < |f| && IsFlag(f[i]) {
      FlaggedSnoc(s, t, f[i]);
      FlagsMean(f, i + 1, Flagged(s, f[i]), t + [f[i]]);
      var r := Flags(f, i, s);
      assert t + [f[i]] + f[i + 1..r.1] == t + f[i..r.1];
    } else {
      assert t + f[i..i] == t;
    }
  }

  ghost predicate AllDecimal(t: string) {
    forall k :: 0 <= k < |t| ==> t[k] in "0123456789"
  }

  /** Nothing, a star, or a decimal number. */
  ghost predicate IsWidth(w: Width, t: string) {
    match w
    case NoWidth => t == ""
    case Star => t == "*"
    case Literal(n) => t != "" && AllDecimal(t) && n == ReadDigits(t, 10, 0)
  }

  lemma DecimalLetter(c: char)
    ensures IsDecimal(c) <==> c in "0123456789"
    ensures IsDecimal(c) ==> IsDigit(c, 10)
  {
  }

  lemma ReadSnoc(t: string, c: char)
    requires AllDigits(t, 10) && IsDecimal(c)
    ensures AllDigits(t + [c], 10) && ReadDigits(t + [c], 10, 0) == ReadDigits(t, 10, 0) * 10 + DigitValue(c)
  {
    ReadOn(t, [c], 10, 0);
    DecimalLetter(c);
    assert [c][1..] == "";
  }

  lemma WidthSnoc(w: Width, t: string, c: char)
    requires !w.Star? && IsWidth(w, t) && AllDigits(t, 10) && IsDecimal(c)
    ensures AllDigits(t + [c], 10)
    ensures IsWidth(Literal((if w.Literal? then w.n else 0) * 10 + DigitValue(c)), t + [c])
  {
    ReadSnoc(t, c);
    DecimalLetter(c);
  }

  lemma {:induction false} LiteralMeans(f: string, i: nat, w: Width, t: string)
    requires i <= |f| && !w.Star? && IsWidth(w, t) && AllDigits(t, 10)
    ensures var r := LiteralWidth(f, i, w);
            i <= r.1 <= |f| && !r.0.Star? && IsWidth(r.0, t + f[i..r.1]) && At(f, r.1) !in "0123456789"
    decreases |f| - i
  {
    hide IsWidth, AllDigits, IsDecimal, DigitValue;
    DecimalLetter(At(f, i));
    if i < |f| && IsDecimal(f[i]) {
      var u := t + [f[i]];
      WidthSnoc(w, t, f[i]);
      var n := (if w.Literal? then w.n else 0) * 10 + DigitValue(f[i]);
      LiteralMeans(f, i + 1, Literal(n), u);
      var r := LiteralWidth(f, i, w);
      assert u + f[i + 1..r.1] == t + f[i..r.1];
    } else {
      assert t + f[i..i] == t;
    }
  }

  lemma WidthMeans(f: string, i: nat)
    requires i <= |f|
    ensures var r := ParseWidth(f, i); i <= r.1 <= |f| && IsWidth(r.0, f[i..r.1])
  {
    if At(f, i) != '*' {
      LiteralMeans(f, i, NoWidth, "");
      var r := LiteralWidth(f, i, NoWidth);
      assert "" + f[i..r.1] == f[i..r.1];
    } else {
      assert f[i..i + 1] == "*";
    }
  }

  /** The length letters and the number of values of the type they stand for. */
  ghost predicate IsLength(l: Length, t: string) {
    || (t == "" && Range(l) == 0x1_0000_0000)
    || (t == "h" && Range(l) == 0x1_0000)
    || (t == "hh" && Range(l) == 0x100)
    || (t in ["l", "ll", "j", "z", "t"] && Range(l) == 0x1_0000_0000_0000_0000)
  }

  lemma LengthMeans(f: string, i: nat)
    requires i <= |f|
    ensures var r := ParseLength(f, i); i <= r.1 <= |f| && IsLength(r.0, f[i..r.1])
  {
    var r := ParseLength(f, i);
    if r.1 == i + 1 {
      assert f[i..i + 1] == [f[i]];
    } else if r.1 == i + 2 {
      assert f[i..i + 2] == [f[i], f[i + 1]];
    }
  }

  /** Which letter asks for what. */
  ghost predicate IsConversion(c: Conversion, upper: bool, letter: char) {
    match c
    case Percent => letter == '%' && !upper
    case Character => letter == 'c' && !upper
    case Str => letter == 's' && !upper
    case Signed => letter in "di" && !upper
    case Octal => letter == 'o' && !upper
    case Unsigned => letter == 'u' && !upper
    case Hex => letter == if upper then 'X' else 'x'
    case Binary => letter == if upper then 'B' else 'b'
    case Pointer => letter == 'p' && !upper
    case WriteBack => letter == 'n' && !upper
  }

  const LETTERS := "%csdiouxXbBpn"

  lemma LetterMeans(letter: char)
    ensures ParseConversion(letter).Some? <==> letter in LETTERS
    ensures var v := ParseConversion(letter); v.Some? ==> IsConversion(v.value.0, v.value.1, letter)
  {
  }

  lemma JoinSlices(f: string, a: nat, b: nat, c: nat, d: nat)
    requires a <= b <= c <= d < |f|
    ensures f[a..d + 1] == f[a..b] + f[b..c] + f[c..d] + [f[d]]
  {
  }

  /**
   A specification is a percent sign, flags, a width, a length and a conversion letter, and says what these
   stand for.
   */
  lemma ParseMeans(f: string, i: nat) returns (flags: string, width: string, length: string, letter: char)
    requires i < |f| && Parse(f, i).Some?
    ensures var (s, n) := Parse(f, i).value;
            && 2 <= n && i + n <= |f| && f[i + 1..i + n] == flags + width + length + [letter]
            && AllFlags(flags) && HasFlags(s, flags) && IsWidth(s.width, width) && IsLength(s.length, length)
            && IsConversion(s.conv, s.upper, letter)
  {
    ParseEnd(f, i);
    FlagsFrom(f, i + 1);
    var (s, a) := Flags(f, i + 1, PLAIN);
    WidthMeans(f, a);
    var (w, b) := ParseWidth(f, a);
    LengthMeans(f, b);
    var (l, c) := ParseLength(f, b);
    LetterMeans(At(f, c));
    hide Flags, ParseWidth, ParseLength, ParseConversion, IsWidth, IsLength, IsConversion, AllFlags;
    flags, width, length, letter := f[i + 1..a], f[a..b], f[b..c], f[c];
    JoinSlices(f, i + 1, a, b, c);
  }

  lemma FlagsFrom(f: string, i: nat)
    requires i <= |f|
    ensures var r := Flags(f, i, PLAIN); i <= r.1 <= |f| && HasFlags(r.0, f[i..r.1]) && AllFlags(f[i..r.1])
  {
    FlagsMean(f, i, PLAIN, "");
    var r := Flags(f, i, PLAIN);
    assert "" + f[i..r.1] == f[i..r.1];
  }

  // ----- fields

  /** A field without a width is its sign and text; a literal width is made up with padding. */
  lemma PaddingLaw(s: Spec, args: seq<Arg>)
    requires !s.width.Star?
    ensures var out, sign, text := Laid(FieldOf(s, args)), Converted(s, args).0, Converted(s, args).1;
            var n, m := |out|, |sign| + |text|;
            && n == (if s.width.Literal? && s.width.n > m then s.width.n else m)
            && (s.left ==> out[..m] == sign + text && forall k :: m <= k < n ==> out[k] == ' ')
            && (!s.left && !s.zero ==> out[n - m..] == sign + text && forall k :: 0 <= k < n - m ==> out[k] == ' ')
            && (!s.left && s.zero ==>
                && out[..|sign|] == sign && out[n - |text|..] == text
                && forall k :: |sign| <= k < n - |text| ==> out[k] == '0')
  {
    hide Converted, Laid;
    var d := FieldOf(s, args);
    FieldLength(d);
    if s.left { LaidLeft(d); } else if s.zero { LaidZero(d); } else { LaidRight(d); }
  }

  lemma LaidLeft(d: Field)
    requires d.left
    ensures var m := |d.sign| + |d.payload|;
            && |Laid(d)| >= m && Laid(d)[..m] == d.sign + d.payload
            && forall k :: m <= k < |Laid(d)| ==> Laid(d)[k] == ' '
  {
  }

  lemma LaidRight(d: Field)
    requires !d.left && !d.zero
    ensures var n, m := |Laid(d)|, |d.sign| + |d.payload|;
            n >= m && Laid(d)[n - m..] == d.sign + d.payload && forall k :: 0 <= k < n - m ==> Laid(d)[k] == ' '
  {
  }

  lemma LaidZero(d: Field)
    requires !d.left && d.zero
    ensures var n := |Laid(d)|;
            && n >= |d.sign| + |d.payload| && Laid(d)[..|d.sign|] == d.sign && Laid(d)[n - |d.payload|..] == d.payload
            && forall k :: |d.sign| <= k < n - |d.payload| ==> Laid(d)[k] == '0'
  {
  }

  /** A star stands for the argument as a width, to the left if it is negative. */
  lemma StarWidthLaw(s: Spec, w: int, rest: seq<Arg>)
    requires s.width.Star? && -0x8000_0000 <= w < 0x8000_0000
    ensures FieldOf(s, [Num(w)] + rest)
            == FieldOf(s.(width := Literal(if w < 0 then -w else w), left := s.left || w < 0), rest)
    ensures AfterField(s, [Num(w)] + rest) == AfterField(s.(width := NoWidth), rest)
  {
    hide Converted;
    assert ([Num(w)] + rest)[1..] == rest;
    var t := s.(width := Literal(if w < 0 then -w else w), left := s.left || w < 0);
    SameConverted(s, t, rest);
  }

  lemma SameConverted(s: Spec, t: Spec, args: seq<Arg>)
    requires t == s.(width := t.width, left := t.left)
    ensures Converted(s, args) == Converted(t, args)
  {
  }

  /** Without flags and width a field is its sign and text. */
  lemma BareField(conv: Conversion, upper: bool, args: seq<Arg>)
    ensures var s := PLAIN.(conv := conv, upper := upper);
            Laid(FieldOf(s, args)) == Converted(s, args).0 + Converted(s, args).1
  {
    hide Converted;
    var s := PLAIN.(conv := conv, upper := upper);
    var c := Converted(s, args);
    assert "" + c.0 == c.0;
  }

  // ----- text and single letters in a format

  /** No specification starts at `k`: no percent sign, or one that nothing follows which could belong to it. */
  ghost predicate Inert(f: string, k: nat)
    requires k < |f|
  {
    f[k] == '%' ==> k + 1 == |f| || f[k + 1] !in "-+ *0123456789hljzt%csdiouxXbBpn"
  }

  lemma InertFails(f: string, k: nat)
    requires k < |f| && f[k] == '%' && Inert(f, k)
    ensures Parse(f, k).None?
  {
    var c := At(f, k + 1);
    FlagLetter(c);
    DecimalLetter(c);
    LetterMeans(c);
  }

  /** Text without specifications is printed as it stands, whatever the arguments. */
  lemma {:induction false} PlainText(f: string, i: nat, args: seq<Arg>, count: nat)
    requires i <= |f| && forall k :: i <= k < |f| ==> Inert(f, k)
    ensures Rendered(f, i, args, count) == (f[i..], [])
    decreases |f| - i
  {
    hide Parse, Inert, Rendered;
    if i == |f| {
      assert Rendered(f, i, args, count) == ("", []) by { NothingLeft(f, args, count); }
    } else {
      PlainText(f, i + 1, args, count + 1);
      if f[i] == '%' { InertFails(f, i); }
      CharStep(f, i, args, count);
      var none: seq<int> := [];
      assert [f[i]] + f[i + 1..] == f[i..] && none + none == none;
    }
  }

  lemma NothingLeft(f: string, args: seq<Arg>, count: nat)
    ensures Rendered(f, |f|, args, count) == ("", [])
  {
  }

  /** A percent sign and a letter. */
  ghost predicate Letter(f: string, i: nat, c: char) {
    i + 1 < |f| && f[i] == '%' && f[i + 1] == c
  }

  lemma ParseLetter(f: string, i: nat, c: char)
    requires Letter(f, i, c) && c in LETTERS
    ensures ParseConversion(c).Some?
    ensures var v := ParseConversion(c).value; Parse(f, i) == Some((PLAIN.(conv := v.0, upper := v.1), 2))
  {
    LetterMeans(c);
    FlagsStop(f, i + 1, PLAIN);
  }

  lemma LetterStep(f: string, i: nat, c: char, args: seq<Arg>, count: nat)
    requires Letter(f, i, c) && c in LETTERS
    ensures ParseConversion(c).Some?
    ensures var v := ParseConversion(c).value;
            var s := PLAIN.(conv := v.0, upper := v.1);
            var t := Converted(s, args).0 + Converted(s, args).1;
            Rendered(f, i, args, count)
            == Joined((t, if v.0 == WriteBack then [SignedCast(NoLength, count)] else []),
                      Rendered(f, i + 2, if v.0 == Percent then args else Rest(args), count + |t|))
  {
    hide Parse, Laid, Converted, ParseConversion, SignedCast, Rendered, FieldOf;
    ParseLetter(f, i, c);
    var v := ParseConversion(c).value;
    FieldStep(f, i, args, count);
    BareField(v.0, v.1, args);
  }

  /** Two percent signs print one and take no argument. */
  lemma PercentLaw(f: string, i: nat, args: seq<Arg>, count: nat)
    requires Letter(f, i, '%')
    ensures Rendered(f, i, args, count) == Joined(("%", []), Rendered(f, i + 2, args, count + 1))
  {
    hide Rendered;
    LetterStep(f, i, '%', args, count);
    assert "" + "%" == "%";
  }

  /** `%s` prints its argument, and nothing for a null pointer. */
  lemma TextLaw(f: string, i: nat, t: Option<string>, rest: seq<Arg>, count: nat)
    requires Letter(f, i, 's')
    ensures var x := if t.Some? then t.value else "";
            Rendered(f, i, [Text(t)] + rest, count) == Joined((x, []), Rendered(f, i + 2, rest, count + |x|))
  {
    hide Rendered, Converted;
    LetterStep(f, i, 's', [Text(t)] + rest, count);
    assert ([Text(t)] + rest)[1..] == rest;
    ConvertedText(t, rest);
  }

  lemma ConvertedText(t: Option<string>, rest: seq<Arg>)
    ensures var c := Converted(PLAIN.(conv := Str), [Text(t)] + rest); c.0 + c.1 == if t.Some? then t.value else ""
  {
    var x := if t.Some? then t.value else "";
    assert "" + x == x;
  }

  /** `%c` prints one character, and nothing for a zero. */
  lemma CharacterLaw(f: string, i: nat, x: int, rest: seq<Arg>, count: nat)
    requires Letter(f, i, 'c') && 0 <= x < 0x100
    ensures var t := if x == 0 then "" else [x as char];
            Rendered(f, i, [Num(x)] + rest, count) == Joined((t, []), Rendered(f, i + 2, rest, count + |t|))
  {
    hide Rendered;
    LetterStep(f, i, 'c', [Num(x)] + rest, count);
    assert ([Num(x)] + rest)[1..] == rest;
    var t := if x == 0 then "" else [x as char];
    assert "" + t == t;
  }

  /** `%d` and `%i` print a sign only for negative numbers, and decimal digits. */
  lemma SignedLaw(f: string, i: nat, x: int, rest: seq<Arg>, count: nat)
    requires (Letter(f, i, 'd') || Letter(f, i, 'i')) && -0x8000_0000 <= x < 0x8000_0000
    ensures var t := if x < 0 then "-" + Number(-x, 10, false) else Number(x, 10, false);
            Rendered(f, i, [Num(x)] + rest, count) == Joined((t, []), Rendered(f, i + 2, rest, count + |t|))
  {
    hide Rendered, Number;
    LetterStep(f, i, f[i + 1], [Num(x)] + rest, count);
    assert ([Num(x)] + rest)[1..] == rest;
    MagnitudeExact(x);
    var t := Number(Magnitude(x), 10, false);
    assert "" + t == t;
  }

  /** The unsigned conversions, their bases and their alphabets. */
  lemma UnsignedLaw(f: string, i: nat, x: int, rest: seq<Arg>, count: nat)
    requires i + 1 < |f| && f[i] == '%' && f[i + 1] in "ouxXbB" && 0 <= x < 0x1_0000_0000
    ensures var c := f[i + 1];
            var base := if c == 'o' then 8 else if c == 'u' then 10 else if c == 'x' || c == 'X' then 16 else 2;
            var t := Number(x, base, c == 'X' || c == 'B');
            Rendered(f, i, [Num(x)] + rest, count) == Joined((t, []), Rendered(f, i + 2, rest, count + |t|))
  {
    hide Rendered, Number, Converted, ParseConversion;
    var c := f[i + 1];
    LetterStep(f, i, c, [Num(x)] + rest, count);
    assert ([Num(x)] + rest)[1..] == rest;
    ConvertedUnsigned(c, x, rest);
  }

  lemma ConvertedUnsigned(c: char, x: int, rest: seq<Arg>)
    requires c in "ouxXbB" && 0 <= x < 0x1_0000_0000 && ParseConversion(c).Some?
    ensures var base := if c == 'o' then 8 else if c == 'u' then 10 else if c == 'x' || c == 'X' then 16 else 2;
            var v := ParseConversion(c).value;
            var t := Converted(PLAIN.(conv := v.0, upper := v.1), [Num(x)] + rest);
            v.0 != Percent && v.0 != WriteBack && t.0 + t.1 == Number(x, base, c == 'X' || c == 'B')
  {
    hide Number;
    var base := if c == 'o' then 8 else if c == 'u' then 10 else if c == 'x' || c == 'X' then 16 else 2;
    var t := Number(x, base, c == 'X' || c == 'B');
    assert "" + t == t;
  }

  /** `%p` prints an address in lower-case hexadecimal. */
  lemma PointerLaw(f: string, i: nat, x: int, rest: seq<Arg>, count: nat)
    requires Letter(f, i, 'p') && 0 <= x < 0x1_0000_0000_0000_0000
    ensures var t := Number(x, 16, false);
            Rendered(f, i, [Num(x)] + rest, count) == Joined((t, []), Rendered(f, i + 2, rest, count + |t|))
  {
    hide Rendered, Number;
    LetterStep(f, i, 'p', [Num(x)] + rest, count);
    assert ([Num(x)] + rest)[1..] == rest;
    var t := Number(x, 16, false);
    assert "" + t == t;
  }

  /** `%n` prints nothing and stores the number of characters so far. */
  lemma CountLaw(f: string, i: nat, args: seq<Arg>, count: nat)
    requires Letter(f, i, 'n') && count < 0x8000_0000
    ensures Rendered(f, i, args, count) == Joined(("", [count]), Rendered(f, i + 2, Rest(args), count))
  {
    hide Rendered;
    LetterStep(f, i, 'n', args, count);
    assert "" + "" == "";
  }

  /** A plus or a blank before the letter is printed before a number that is not negative. */
  lemma PrependLaw(plus: bool, x: int)
    requires -0x8000_0000 <= x < 0x8000_0000
    ensures Rendered(if plus then "%+d" else "% d", 0, [Num(x)], 0).0
            == (if x < 0 then "-" else if plus then "+" else " ") + Number(if x < 0 then -x else x, 10, false)
  {
    var s := PLAIN.(conv := Signed, prepend := if plus then Plus else Blank);
    assert Show(s) == if plus then "%+d" else "% d";
    PrintOne(s, [Num(x)]);
    hide Rendered, Number, Show;
    MagnitudeExact(x);
    PaddingLaw(s, [Num(x)]);
    var out := Laid(FieldOf(s, [Num(x)]));
    assert out[|out| - |out|..] == out;
  }
}
