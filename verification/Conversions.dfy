/**
 What each conversion of `vsnprintf` prints, said without the functions that define it: the text between '%' and the
 conversion character, the arguments that it takes, and the output character by character.
 */
module Conversions {
  import opened Bitmaps
  import opened Formatting
  import opened Numerals

  // ----- conversion specifications as they are written

  /** A width or a precision: not given, a number, the next argument, or, for a precision, a dot and nothing more. */
  datatype Amount = Unset | Number(n: nat) | Star | Dot

  datatype Directive = Directive(flags: string, width: Amount, precision: Amount, qualifier: string, conversion: char)

  const FLAGS := "-+ #0"

  predicate WellFormed(d: Directive) {
    && (forall k :: 0 <= k < |d.flags| ==> d.flags[k] in FLAGS)
    && !d.width.Dot? && (d.width.Number? ==> d.width.n > 0)
    && d.qualifier in ["", "h", "l", "ll", "L", "Z", "z"]
    && d.conversion !in FLAGS && d.conversion !in "123456789*.hlLZz" && d.conversion != '\0'
  }

  function Digits(n: nat): string {
    Numeral(n, 10, false)
  }

  function WidthText(a: Amount): string {
    match a
    case Number(n) => Digits(n)
    case Star => "*"
    case _ => ""
  }

  function PrecisionText(a: Amount): string {
    match a
    case Unset => ""
    case Number(n) => "." + Digits(n)
    case Star => ".*"
    case Dot => "."
  }

  function Tail(d: Directive): string {
    d.qualifier + [d.conversion]
  }

  function Text(d: Directive): string {
    "%" + (d.flags + (WidthText(d.width) + (PrecisionText(d.precision) + Tail(d))))
  }

  // ----- what they ask for

  function Stars(a: Amount): nat {
    if a.Star? then 1 else 0
  }

  /** The argument that is converted. */
  function ArgumentOf(d: Directive, arg: nat): nat {
    arg + Stars(d.width) + Stars(d.precision)
  }

  /** A negative argument as the width asks for its absolute value, on the left side. */
  function WidthFrom(a: Amount, w: int): int {
    match a
    case Number(n) => n
    case Star => if w < 0 then -w else w
    case _ => -1
  }

  predicate LeftFrom(a: Amount, w: int) {
    a.Star? && w < 0
  }

  /** A negative argument as the precision asks for 0. */
  function PrecisionFrom(a: Amount, p: int): int {
    match a
    case Unset => -1
    case Number(n) => n
    case Star => if p < 0 then 0 else p
    case Dot => 0
  }

  function WidthOf(d: Directive, args: Args, arg: nat): int {
    WidthFrom(d.width, Signed(args(arg).word))
  }

  predicate LeftOf(d: Directive, args: Args, arg: nat) {
    '-' in d.flags || LeftFrom(d.width, Signed(args(arg).word))
  }

  function PrecisionOf(d: Directive, args: Args, arg: nat): int {
    PrecisionFrom(d.precision, Signed(args(arg + Stars(d.width)).word))
  }

  function QualifierOf(d: Directive): char {
    if d.qualifier == "" then '\0' else if d.qualifier == "ll" then 'L' else d.qualifier[0]
  }

  function SpecOf(d: Directive, args: Args, arg: nat): Spec {
    Spec(Flags('0' in d.flags, false, '+' in d.flags, ' ' in d.flags, LeftOf(d, args, arg), '#' in d.flags, false),
         WidthOf(d, args, arg), PrecisionOf(d, args, arg), QualifierOf(d))
  }

  // ----- reading them

  predicate Has(f: string, c: char) {
    c in f
  }

  function AddFlags(g: Flags, f: string): Flags {
    Flags(g.zeropad || Has(f, '0'), g.sign, g.plus || Has(f, '+'), g.space || Has(f, ' '), g.left || Has(f, '-'),
          g.special || Has(f, '#'), g.large)
  }

  predicate IsFlagText(f: string) {
    forall k :: 0 <= k < |f| ==> IsFlag(f[k])
  }

  lemma FlagCharacters(c: char)
    ensures c in FLAGS <==> IsFlag(c)
  {
  }

  lemma {:induction false} FlagsMean(g: Flags, f: string, tail: string, arg: nat)
    requires IsFlagText(f) && !IsFlag(At(tail, 0))
    ensures ReadFlags(Reading(NOTHING.(flags := g), f + tail, arg)) ==
            Reading(NOTHING.(flags := AddFlags(g, f)), tail, arg)
    decreases |f|
  {
    if f == "" {
      assert f + tail == tail;
      assert AddFlags(g, "") == g;
    } else {
      hide AddFlags, WithFlag;
      assert (f + tail)[1..] == f[1..] + tail;
      FlagsMean(WithFlag(g, f[0]), f[1..], tail, arg);
      OneFlag(g, f);
    }
  }

  lemma OneFlag(g: Flags, f: string)
    requires f != "" && IsFlag(f[0])
    ensures AddFlags(WithFlag(g, f[0]), f[1..]) == AddFlags(g, f)
  {
    InTail(f, '0');
    InTail(f, '+');
    InTail(f, ' ');
    InTail(f, '-');
    InTail(f, '#');
    hide Has;
  }

  lemma InTail(f: string, c: char)
    requires f != ""
    ensures Has(f, c) <==> c == f[0] || Has(f[1..], c)
  {
    assert f == [f[0]] + f[1..];
  }

  lemma {:induction false} FirstDigit(n: nat)
    ensures IsDigit(Digits(n)[0]) && (n > 0 ==> Digits(n)[0] != '0')
  {
    if n >= 10 {
      FirstDigit(n / 10);
    }
  }

  lemma TenIsDigit(c: char)
    ensures Accepted(c, 10) <==> IsDigit(c)
  {
  }

  lemma {:induction false} ScanAll(s: string, tail: string, i: nat)
    requires i <= |s| && AllAccepted(s, 10) && !IsDigit(At(tail, 0))
    ensures Scan(s + tail, i, 10) == |s|
    decreases |s| - i
  {
    hide Accepted;
    if i < |s| {
      ScanAll(s, tail, i + 1);
    } else if tail != "" {
      TenIsDigit((s + tail)[i]);
    }
  }

  /** A number in a format reads as itself. */
  lemma DigitsRead(n: nat, tail: string)
    requires !IsDigit(At(tail, 0))
    ensures var s := Digits(n) + tail;
            && IsDigit(At(s, 0)) && Scan(s, 0, 10) == |Digits(n)|
            && AllAccepted(Digits(n), 10) && ValueOf(Digits(n), 10) == n
            && s[..|Digits(n)|] == Digits(n) && s[|Digits(n)|..] == tail
  {
    hide ValueOf, Numeral, Accepted, AllAccepted;
    FirstDigit(n);
    NumeralRoundTrip(0, n, 10, false);
    assert Repeat('0', 0) + Digits(n) == Digits(n);
    ScanAll(Digits(n), tail, 0);
  }

  lemma WidthMeans(spec: Spec, a: Amount, tail: string, args: Args, arg: nat)
    requires !a.Dot? && spec.width == -1 && !IsDigit(At(tail, 0)) && At(tail, 0) != '*'
    ensures var w := Signed(args(arg).word);
            ReadWidth(Reading(spec, WidthText(a) + tail, arg), args) ==
            Reading(spec.(width := WidthFrom(a, w), flags := spec.flags.(left := spec.flags.left || LeftFrom(a, w))),
                    tail, arg + Stars(a))
  {
    hide ValueOf, Scan, Numeral;
    if a.Number? {
      DigitsRead(a.n, tail);
    } else if a.Star? {
      assert ("*" + tail)[1..] == tail;
    } else {
      assert WidthText(a) + tail == tail;
    }
  }

  lemma PrecisionMeans(spec: Spec, a: Amount, tail: string, args: Args, arg: nat)
    requires spec.precision == -1 && !IsDigit(At(tail, 0)) && At(tail, 0) != '*' && At(tail, 0) != '.'
    ensures ReadPrecision(Reading(spec, PrecisionText(a) + tail, arg), args) ==
            Reading(spec.(precision := PrecisionFrom(a, Signed(args(arg).word))), tail, arg + Stars(a))
  {
    hide ValueOf, Scan, Numeral, Signed;
    match a
    case Unset => assert "" + tail == tail;
    case Number(n) => NumberAfterDot(n, tail);
    case Star =>
      assert (".*" + tail)[1..] == "*" + tail;
      assert ("*" + tail)[1..] == tail;
    case Dot => assert ("." + tail)[1..] == tail;
  }

  lemma NumberAfterDot(n: nat, tail: string)
    requires !IsDigit(At(tail, 0))
    ensures var rest := (("." + Digits(n)) + tail)[1..];
            && IsDigit(At(rest, 0)) && Scan(rest, 0, 10) == |Digits(n)|
            && AllAccepted(Digits(n), 10) && ValueOf(Digits(n), 10) == n
            && rest[..|Digits(n)|] == Digits(n) && rest[|Digits(n)|..] == tail
  {
    hide ValueOf, Scan, Numeral;
    DigitsRead(n, tail);
    assert (("." + Digits(n)) + tail)[1..] == Digits(n) + tail;
  }

  lemma QualifierMeans(spec: Spec, d: Directive, rest: string, arg: nat)
    requires WellFormed(d) && spec.qualifier == '\0'
    ensures ReadQualifier(Reading(spec, Tail(d) + rest, arg)) ==
            Reading(spec.(qualifier := QualifierOf(d)), [d.conversion] + rest, arg)
  {
    var s, q := Tail(d) + rest, |d.qualifier|;
    assert s[q..] == [d.conversion] + rest;
    assert q > 0 ==> s[0] == d.qualifier[0];
  }

  lemma TailStart(d: Directive, rest: string)
    requires WellFormed(d)
    ensures var c := At(Tail(d) + rest, 0); c !in FLAGS && !IsDigit(c) && c != '*' && c != '.'
    ensures var c := At(PrecisionText(d.precision) + (Tail(d) + rest), 0); c !in FLAGS && !IsDigit(c) && c != '*'
    ensures !IsFlag(At(WidthText(d.width) + (PrecisionText(d.precision) + (Tail(d) + rest)), 0))
  {
    var t := Tail(d) + rest;
    assert t[0] == if d.qualifier == "" then d.conversion else d.qualifier[0];
    hide Numeral;
    var p := PrecisionText(d.precision) + t;
    assert d.precision.Unset? ==> p == t;
    assert !d.precision.Unset? ==> p[0] == '.';
    if d.width.Number? {
      FirstDigit(d.width.n);
    }
    assert d.width.Unset? ==> WidthText(d.width) + p == p;
  }

  lemma FlagsAreFlags(d: Directive)
    requires WellFormed(d)
    ensures IsFlagText(d.flags) && !d.width.Dot?
    ensures Has(d.flags, '0') == ('0' in d.flags) && Has(d.flags, '+') == ('+' in d.flags)
    ensures Has(d.flags, ' ') == (' ' in d.flags) && Has(d.flags, '-') == ('-' in d.flags)
    ensures Has(d.flags, '#') == ('#' in d.flags)
  {
    forall k | 0 <= k < |d.flags|
      ensures IsFlag(d.flags[k])
    {
      FlagCharacters(d.flags[k]);
    }
  }

  lemma TextParts(d: Directive, rest: string)
    ensures Text(d) != "" && Text(d)[0] == '%'
    ensures (Text(d) + rest)[1..] ==
            d.flags + (WidthText(d.width) + (PrecisionText(d.precision) + (Tail(d) + rest)))
  {
    hide WidthText, PrecisionText, Tail;
    var parts := d.flags + (WidthText(d.width) + (PrecisionText(d.precision) + Tail(d)));
    assert (Text(d) + rest)[1..] == parts + rest;
  }

  /** A specification is read as what it says. */
  lemma SpecificationMeans(d: Directive, rest: string, args: Args, arg: nat)
    requires WellFormed(d)
    ensures Text(d) != "" && Text(d)[0] == '%'
    ensures ReadSpec((Text(d) + rest)[1..], args, arg) ==
            Reading(SpecOf(d, args, arg), [d.conversion] + rest, ArgumentOf(d, arg))
  {
    TextParts(d, rest);
    TailStart(d, rest);
    FlagsAreFlags(d);
    SpecAssembled(d, args, arg);
    hide *;
    var s3 := Tail(d) + rest;
    var s2 := PrecisionText(d.precision) + s3;
    var s1 := WidthText(d.width) + s2;
    var spec1 := FlagsOnly(d);
    var spec2 := Widened(d, args, arg);
    var spec3 := spec2.(precision := PrecisionOf(d, args, arg));
    var arg2 := arg + Stars(d.width);
    FlagsMean(NO_FLAGS, d.flags, s1, arg);
    WidthMeans(spec1, d.width, s2, args, arg);
    PrecisionMeans(spec2, d.precision, s3, args, arg2);
    QualifierMeans(spec3, d, rest, arg2 + Stars(d.precision));
    InSteps((Text(d) + rest)[1..], args, arg, Reading(spec1, s1, arg), Reading(spec2, s2, arg2),
            Reading(spec3, s3, arg2 + Stars(d.precision)));
  }

  function FlagsOnly(d: Directive): Spec {
    NOTHING.(flags := AddFlags(NO_FLAGS, d.flags))
  }

  function Widened(d: Directive, args: Args, arg: nat): Spec {
    var spec := FlagsOnly(d);
    spec.(width := WidthFrom(d.width, Signed(args(arg).word)),
          flags := spec.flags.(left := spec.flags.left || LeftFrom(d.width, Signed(args(arg).word))))
  }

  lemma SpecAssembled(d: Directive, args: Args, arg: nat)
    requires Has(d.flags, '0') == ('0' in d.flags) && Has(d.flags, '+') == ('+' in d.flags)
    requires Has(d.flags, ' ') == (' ' in d.flags) && Has(d.flags, '-') == ('-' in d.flags)
    requires Has(d.flags, '#') == ('#' in d.flags)
    ensures Widened(d, args, arg).(precision := PrecisionOf(d, args, arg), qualifier := QualifierOf(d)) ==
            SpecOf(d, args, arg)
    ensures FlagsOnly(d) == NOTHING.(flags := AddFlags(NO_FLAGS, d.flags)) && FlagsOnly(d).width == -1
    ensures Widened(d, args, arg).precision == -1 && Widened(d, args, arg).qualifier == '\0'
    ensures var w := Signed(args(arg).word);
            Widened(d, args, arg) ==
            FlagsOnly(d).(width := WidthFrom(d.width, w),
                          flags := FlagsOnly(d).flags.(left := FlagsOnly(d).flags.left || LeftFrom(d.width, w)))
    ensures PrecisionOf(d, args, arg) == PrecisionFrom(d.precision, Signed(args(arg + Stars(d.width)).word))
    ensures ArgumentOf(d, arg) == arg + Stars(d.width) + Stars(d.precision)
  {
    hide Has, WidthFrom, LeftFrom, PrecisionFrom, QualifierOf, Signed, Stars;
  }

  lemma InSteps(fmt: string, args: Args, arg: nat, r1: Reading, r2: Reading, r3: Reading)
    requires ReadFlags(Reading(NOTHING, fmt, arg)) == r1 && ReadWidth(r1, args) == r2 && ReadPrecision(r2, args) == r3
    ensures ReadSpec(fmt, args, arg) == ReadQualifier(r3)
  {
    hide ReadFlags, ReadWidth, ReadPrecision, ReadQualifier;
  }

  /** So a single specification prints its conversion, and the next one goes on with the argument after its own. */
  lemma DirectiveMeans(d: Directive, args: Args, arg: nat)
    requires WellFormed(d)
    ensures Complete(Text(d), args, arg)
    ensures ArgAfter(Text(d), args, arg) == ArgumentOf(d, arg) + if d.conversion in "cspnoXxdiu" then 1 else 0
    ensures Format(Text(d), args, arg) == Converted(d.conversion, SpecOf(d, args, arg), args(ArgumentOf(d, arg)))
  {
    hide ReadSpec, Converted, Text, SpecOf, ArgumentOf, Format, Complete, ArgAfter;
    SpecificationMeans(d, "", args, arg);
    assert Text(d) + "" == Text(d) && [d.conversion] + "" == [d.conversion];
    OneConversion(Text(d), args, arg, SpecOf(d, args, arg), d.conversion, ArgumentOf(d, arg));
  }

  lemma OneConversion(fmt: string, args: Args, arg: nat, spec: Spec, c: char, operand: nat)
    requires fmt != "" && fmt[0] == '%' && c != '\0'
    requires ReadSpec(fmt[1..], args, arg) == Reading(spec, [c], operand)
    ensures Complete(fmt, args, arg) && ArgAfter(fmt, args, arg) == NextArg(c, operand)
    ensures Format(fmt, args, arg) == Converted(c, spec, args(operand))
  {
    hide ReadSpec, Converted, NextArg;
    assert [c][1..] == "";
  }

  // ----- text

  /** `s` padded with blanks to the width, on one side. */
  ghost predicate Padded(t: string, s: string, width: int, left: bool) {
    && |t| == (if width > |s| then width else |s|)
    && (left ==> t[..|s|] == s && forall k :: |s| <= k < |t| ==> t[k] == ' ')
    && (!left ==> t[|t| - |s|..] == s && forall k :: 0 <= k < |t| - |s| ==> t[k] == ' ')
  }

  lemma FieldIsPadded(s: string, width: int, left: bool)
    ensures Padded(Field(s, width, left), s, width, left)
  {
  }

  /** "%c" prints the low byte of its argument as one character. */
  lemma CharacterConverts(d: Directive, args: Args, arg: nat)
    requires WellFormed(d) && d.conversion == 'c'
    ensures var c := (args(ArgumentOf(d, arg)).word % 256) as char;
            Padded(Format(Text(d), args, arg), [c], WidthOf(d, args, arg), LeftOf(d, args, arg))
  {
    hide Format, Text, Field;
    DirectiveMeans(d, args, arg);
    FieldIsPadded([(args(ArgumentOf(d, arg)).word % 256) as char], WidthOf(d, args, arg), LeftOf(d, args, arg));
  }

  /**
   "%s" prints the text at its argument, for every address from 4096 on, and "<NULL>" below: up to its NUL, and no more
   than the precision allows.
   */
  lemma StringConverts(d: Directive, args: Args, arg: nat) returns (n: nat)
    requires WellFormed(d) && d.conversion == 's'
    ensures var a, p := args(ArgumentOf(d, arg)), PrecisionOf(d, args, arg);
            var s := if a.word >= 4096 then a.text else "<NULL>";
            && n <= |s| && (forall k :: 0 <= k < n ==> s[k] != '\0')
            && (p >= 0 ==> n <= p) && (n == |s| || s[n] == '\0' || n == p)
            && Padded(Format(Text(d), args, arg), s[..n], WidthOf(d, args, arg), LeftOf(d, args, arg))
  {
    hide Format, Text, Field;
    DirectiveMeans(d, args, arg);
    var a := args(ArgumentOf(d, arg));
    var s := if a.word >= 4096 then a.text else "<NULL>";
    n := StrNLen(s, PrecisionOf(d, args, arg));
    FieldIsPadded(s[..n], WidthOf(d, args, arg), LeftOf(d, args, arg));
  }

  /** "%%" prints one '%', "%n" nothing, and a character that is no conversion itself, behind a '%'. */
  lemma OthersConvert(d: Directive, args: Args, arg: nat)
    requires WellFormed(d) && d.conversion !in "cspoXxdiu"
    ensures Format(Text(d), args, arg) ==
            if d.conversion == '%' then "%" else if d.conversion == 'n' then "" else ['%', d.conversion]
  {
    hide Format, Text;
    DirectiveMeans(d, args, arg);
  }

  // ----- numbers

  /** The digits of `n`, without a zero in front, in capitals or not. */
  ghost predicate IsNumeral(s: string, n: nat, base: nat, capital: bool) {
    && s != "" && AllAccepted(s, base) && ValueOf(s, base) == n && (|s| > 1 ==> s[0] != '0') && InCase(s, capital)
  }

  /** No letters of the other case. */
  predicate InCase(s: string, capital: bool) {
    forall k :: 0 <= k < |s| ==> !(if capital then 'a' <= s[k] <= 'z' else 'A' <= s[k] <= 'Z')
  }

  lemma {:induction false} NumeralShape(n: nat, base: nat, capital: bool)
    requires 2 <= base <= 16
    ensures var s := Numeral(n, base, capital);
            (n > 0 ==> s[0] != '0') && (n < base ==> |s| == 1) && InCase(s, capital)
    decreases n
  {
    hide DigitChar;
    if n >= base {
      Quotient(n, base);
      NumeralShape(n / base, base, capital);
      LetterCase(n % base, capital);
    } else {
      LetterCase(n, capital);
    }
  }

  lemma Quotient(n: nat, base: nat)
    requires 0 < base <= n
    ensures n / base > 0 && n % base < base
  {
  }

  lemma LetterCase(d: nat, capital: bool)
    requires d < 16
    ensures var c := DigitChar(d, capital);
            (c == '0' <==> d == 0) && !(if capital then 'a' <= c <= 'z' else 'A' <= c <= 'Z')
  {
  }

  lemma NumeralIsNumeral(n: nat, base: nat, capital: bool)
    requires 2 <= base <= 16
    ensures IsNumeral(Numeral(n, base, capital), n, base, capital)
  {
    hide AllAccepted, ValueOf, InCase, Numeral;
    NumeralShape(n, base, capital);
    NumeralRoundTrip(0, n, base, capital);
    assert Repeat('0', 0) + Numeral(n, base, capital) == Numeral(n, base, capital);
  }

  /** What is around digits: a sign, a prefix, zeros up to the precision, and blanks or zeros up to the width. */
  ghost predicate PrintsNumber(t: string, digits: string, sign: string, prefix: string, width: int, precision: int,
                               left: bool, zeros: bool) {
    var fill := Repeat('0', precision - |digits|);
    var pad := width - (|sign| + |prefix| + |fill| + |digits|);
    t == if left then sign + prefix + fill + digits + Repeat(' ', pad)
         else if zeros then sign + prefix + Repeat('0', pad) + fill + digits
         else Repeat(' ', pad) + sign + prefix + fill + digits
  }

  lemma {:induction false} RepeatSum(c: char, a: nat, b: nat)
    ensures Repeat(c, a) + Repeat(c, b) == Repeat(c, a + b)
  {
  }

  lemma NumberPrints(num: Word, base: nat, width: int, precision: int, flags: Flags)
    requires 2 <= base <= 36
    ensures PrintsNumber(NumberText(num, base, width, precision, flags), DigitsText(num, base, flags),
                         SignText(num, flags), PrefixText(base, flags), width, precision, flags.left, flags.zeropad)
  {
    hide SignText, PrefixText, DigitsText;
    var digits, sign, prefix := DigitsText(num, base, flags), SignText(num, flags), PrefixText(base, flags);
    var zeros := Positive(precision - |digits|);
    var fill := Repeat('0', precision - |digits|);
    var pad := width - (|sign| + |prefix| + |fill| + |digits|);
    var padding := Padding(num, base, width, precision, flags);
    assert Positive(pad) == padding && Repeat('0', zeros) == fill;
    SameRepeat(' ', pad);
    SameRepeat('0', pad);
    RepeatSum('0', padding, zeros);
    hide Repeat, Padding;
    Assembled(sign, prefix, Repeat('0', padding), fill, digits);
    NothingRepeated();
    var text := NumberText(num, base, width, precision, flags);
    match PadSide(flags)
    case Before => assert text == Repeat(' ', padding) + sign + prefix + fill + digits + "";
    case Inside => assert text == "" + sign + prefix + (Repeat('0', padding) + fill) + digits + "";
    case After => assert text == "" + sign + prefix + fill + digits + Repeat(' ', padding);
  }

  lemma SameRepeat(c: char, count: int)
    ensures Repeat(c, count) == Repeat(c, Positive(count))
  {
  }

  lemma NothingRepeated()
    ensures Repeat(' ', 0) == ""
    ensures forall s: string :: "" + s == s && s + "" == s
  {
  }

  lemma Assembled(sign: string, prefix: string, pad: string, fill: string, digits: string)
    ensures sign + prefix + (pad + fill) + digits + "" == sign + prefix + pad + fill + digits
  {
    assert sign + prefix + (pad + fill) == sign + prefix + pad + fill;
  }

  function BaseFor(c: char): nat {
    if c == 'o' then 8 else if c in "xXp" then 16 else 10
  }

  /** The number that an integer conversion prints: "h" takes the low 16 bits, "d" and "i" a signed number. */
  function ValueFor(d: Directive, w: Word): int {
    var signed := d.conversion in "di";
    if d.qualifier != "h" then (if signed && w >= 0x8000_0000 then w - 0x1_0000_0000 else w)
    else
      var low := w % 0x1_0000;
      if signed && low >= 0x8000 then low - 0x1_0000 else low
  }

  function SignFor(d: Directive, value: int): string {
    if d.conversion !in "di" then ""
    else if value < 0 then "-"
    else if '+' in d.flags then "+"
    else if ' ' in d.flags then " "
    else ""
  }

  function PrefixFor(d: Directive): string {
    if '#' !in d.flags then ""
    else if d.conversion == 'o' then "0"
    else if d.conversion == 'X' then "0X"
    else if d.conversion in "xp" then "0x"
    else ""
  }

  function Absolute(n: int): nat {
    if n < 0 then -n else n
  }

  /** The flags that the conversion character adds. */
  function FlagsFor(d: Directive, args: Args, arg: nat): Flags {
    SpecOf(d, args, arg).flags.(sign := d.conversion in "di", large := d.conversion == 'X')
  }

  lemma NumberMeans(d: Directive, args: Args, arg: nat, num: Word)
    requires d.conversion in "diuoxX"
    requires num == Formatting.Operand(args(ArgumentOf(d, arg)).word,
                                       SpecOf(d, args, arg).(flags := FlagsFor(d, args, arg)))
    requires WellFormed(d)
    ensures var flags, value := FlagsFor(d, args, arg), ValueFor(d, args(ArgumentOf(d, arg)).word);
            && Magnitude(num, flags) == Absolute(value)
            && SignText(num, flags) == SignFor(d, value) && PrefixText(BaseFor(d.conversion), flags) == PrefixFor(d)
  {
    assert DigitChar(33, false) == 'x' && DigitChar(33, true) == 'X';
  }

  lemma IntegerText(d: Directive, args: Args, arg: nat)
    requires WellFormed(d) && d.conversion in "diuoxX"
    ensures var flags := FlagsFor(d, args, arg);
            var spec := SpecOf(d, args, arg).(flags := flags);
            Format(Text(d), args, arg) ==
            NumberText(Formatting.Operand(args(ArgumentOf(d, arg)).word, spec), BaseFor(d.conversion), spec.width,
                       spec.precision, flags)
  {
    hide Format, Text, NumberText, Formatting.Operand, LeftOf, WidthOf, PrecisionOf, QualifierOf;
    DirectiveMeans(d, args, arg);
  }

  /** Every integer conversion: which digits are printed, and everything around them. */
  lemma IntegerConverts(d: Directive, args: Args, arg: nat) returns (digits: string)
    requires WellFormed(d) && d.conversion in "diuoxX"
    ensures var value := ValueFor(d, args(ArgumentOf(d, arg)).word);
            && IsNumeral(digits, Absolute(value), BaseFor(d.conversion), d.conversion == 'X')
            && PrintsNumber(Format(Text(d), args, arg), digits, SignFor(d, value), PrefixFor(d),
                            WidthOf(d, args, arg), PrecisionOf(d, args, arg), LeftOf(d, args, arg), '0' in d.flags)
  {
    hide Format, Text, NumberText, PrintsNumber, IsNumeral, Formatting.Operand, Numeral, SignText, PrefixText;
    var flags, base := FlagsFor(d, args, arg), BaseFor(d.conversion);
    var spec := SpecOf(d, args, arg).(flags := flags);
    var num := Formatting.Operand(args(ArgumentOf(d, arg)).word, spec);
    IntegerText(d, args, arg);
    NumberMeans(d, args, arg, num);
    digits := DigitsText(num, base, flags);
    NumeralIsNumeral(Magnitude(num, flags), base, flags.large);
    NumberPrints(num, base, spec.width, spec.precision, flags);
  }

  /** "%p" prints the word in base 16; without a width, in 8 digits. */
  lemma PointerConverts(d: Directive, args: Args, arg: nat) returns (digits: string)
    requires WellFormed(d) && d.conversion == 'p'
    ensures var w := WidthOf(d, args, arg);
            && IsNumeral(digits, args(ArgumentOf(d, arg)).word, 16, false)
            && PrintsNumber(Format(Text(d), args, arg), digits, "", PrefixFor(d), if w == -1 then 8 else w,
                            PrecisionOf(d, args, arg), LeftOf(d, args, arg), '0' in d.flags || w == -1)
  {
    hide Format, Text, NumberText, PrintsNumber, IsNumeral, Numeral;
    var spec, num := SpecOf(d, args, arg), args(ArgumentOf(d, arg)).word;
    var width, flags := spec.width, spec.flags;
    if width == -1 {
      width, flags := 8, flags.(zeropad := true);
    }
    DirectiveMeans(d, args, arg);
    digits := DigitsText(num, 16, flags);
    NumeralIsNumeral(num, 16, false);
    NumberPrints(num, 16, width, spec.precision, flags);
    assert DigitChar(33, false) == 'x';
  }
}
