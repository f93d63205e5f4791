/**
 What a format string and its arguments mean: the text `vsnprintf` of libcpp/cstring.cpp would produce in a
 buffer without end.
 */
module Formatting {
  import opened Numerals

  /** An argument: its word, and the C string that the word points to when a string is asked for. */
  datatype Arg = Arg(word: Word, text: string)

  /** The arguments, by position; `va_arg` takes the next. */
  type Args = nat -> Arg

  datatype Spec = Spec(flags: Flags, width: int, precision: int, qualifier: char)

  /** A specification read so far, the rest of the format, and the number of arguments taken. */
  datatype Reading = Reading(spec: Spec, rest: string, arg: nat)

  const NOTHING := Spec(NO_FLAGS, -1, -1, '\0')

  // ----- reading a conversion specification

  predicate IsFlag(c: char) {
    c == '-' || c == '+' || c == ' ' || c == '#' || c == '0'
  }

  function WithFlag(f: Flags, c: char): Flags {
    if c == '-' then f.(left := true)
    else if c == '+' then f.(plus := true)
    else if c == ' ' then f.(space := true)
    else if c == '#' then f.(special := true)
    else if c == '0' then f.(zeropad := true)
    else f
  }

  function ReadFlags(r: Reading): (r': Reading)
    ensures |r'.rest| <= |r.rest| && r'.arg == r.arg
    decreases |r.rest|
  {
    if IsFlag(At(r.rest, 0)) then
      ReadFlags(r.(spec := r.spec.(flags := WithFlag(r.spec.flags, r.rest[0])), rest := r.rest[1..]))
    else r
  }

  function ReadWidth(r: Reading, args: Args): (r': Reading)
    ensures |r'.rest| <= |r.rest| && r'.arg >= r.arg
  {
    var c := At(r.rest, 0);
    if IsDigit(c) then
      var end := Scan(r.rest, 0, 10);
      r.(spec := r.spec.(width := ValueOf(r.rest[..end], 10)), rest := r.rest[end..])
    else if c == '*' then
      var w := Signed(args(r.arg).word);
      Reading(if w < 0 then r.spec.(width := -w, flags := r.spec.flags.(left := true)) else r.spec.(width := w),
              r.rest[1..], r.arg + 1)
    else r
  }

  function ReadPrecision(r: Reading, args: Args): (r': Reading)
    ensures |r'.rest| <= |r.rest| && r'.arg >= r.arg
  {
    if At(r.rest, 0) != '.' then r
    else
      var rest := r.rest[1..];
      var c := At(rest, 0);
      if IsDigit(c) then
        var end := Scan(rest, 0, 10);
        Reading(r.spec.(precision := ValueOf(rest[..end], 10)), rest[end..], r.arg)
      else if c == '*' then
        Reading(r.spec.(precision := Positive(Signed(args(r.arg).word))), rest[1..], r.arg + 1)
      else
        Reading(r.spec.(precision := 0), rest, r.arg)
  }

  function ReadQualifier(r: Reading): (r': Reading)
    ensures |r'.rest| <= |r.rest| && r'.arg == r.arg
  {
    var c := At(r.rest, 0);
    if c == 'l' && At(r.rest, 1) == 'l' then
      r.(spec := r.spec.(qualifier := 'L'), rest := r.rest[2..])
    else if c == 'h' || c == 'l' || c == 'L' || c == 'Z' || c == 'z' then
      r.(spec := r.spec.(qualifier := c), rest := r.rest[1..])
    else r
  }

  function ReadSpec(fmt: string, args: Args, arg: nat): (r: Reading)
    ensures |r.rest| <= |fmt| && r.arg >= arg
  {
    ReadQualifier(ReadPrecision(ReadWidth(ReadFlags(Reading(NOTHING, fmt, arg)), args), args))
  }

  // ----- conversions

  /** `strnlen`, where a negative limit is no limit. */
  function StrNLen(s: string, count: int): (n: nat)
    ensures n <= |s| && (count >= 0 ==> n <= count)
    ensures forall k :: 0 <= k < n ==> s[k] != '\0'
    ensures n == |s| || n == count || s[n] == '\0'
    decreases |s|
  {
    if count == 0 || At(s, 0) == '\0' then 0 else 1 + StrNLen(s[1..], count - 1)
  }

  function Field(text: string, width: int, left: bool): string {
    if left then text + Repeat(' ', width - |text|) else Repeat(' ', width - |text|) + text
  }

  function StringText(a: Arg, spec: Spec): string {
    var s := if a.word < 4096 then "<NULL>" else a.text;
    Field(s[..StrNLen(s, spec.precision)], spec.width, spec.flags.left)
  }

  /** Lines 368-378: what the qualifier leaves of the argument. */
  function Operand(w: Word, spec: Spec): Word {
    if spec.qualifier != 'h' then w
    else
      var short := w % 0x10000;
      if spec.flags.sign && short >= 0x8000 then short + 0xFFFF_0000 else short
  }

  function IntegerText(w: Word, base: nat, spec: Spec): string
    requires 2 <= base <= 36
  {
    NumberText(Operand(w, spec), base, spec.width, spec.precision, spec.flags)
  }

  function PointerText(w: Word, spec: Spec): string {
    if spec.width == -1 then NumberText(w, 16, 8, spec.precision, spec.flags.(zeropad := true))
    else NumberText(w, 16, spec.width, spec.precision, spec.flags)
  }

  predicate TakesArgument(c: char) {
    c in "cspnoXxdiu"
  }

  /** The text of one conversion; any other character stands for itself, after a '%'. */
  function Converted(c: char, spec: Spec, a: Arg): string {
    match c
    case 'c' => Field([(a.word % 256) as char], spec.width, spec.flags.left)
    case 's' => StringText(a, spec)
    case 'p' => PointerText(a.word, spec)
    case 'n' => ""
    case '%' => "%"
    case 'o' => IntegerText(a.word, 8, spec)
    case 'X' => IntegerText(a.word, 16, spec.(flags := spec.flags.(large := true)))
    case 'x' => IntegerText(a.word, 16, spec)
    case 'd' => IntegerText(a.word, 10, spec.(flags := spec.flags.(sign := true)))
    case 'i' => IntegerText(a.word, 10, spec.(flags := spec.flags.(sign := true)))
    case 'u' => IntegerText(a.word, 10, spec)
    case _ => if c == '\0' then "%" else ['%', c]
  }

  function NextArg(c: char, arg: nat): nat {
    if TakesArgument(c) then arg + 1 else arg
  }

  /** The format after a conversion character; the end of the format is not passed. */
  function AfterConversion(rest: string): string {
    if At(rest, 0) == '\0' then rest else rest[1..]
  }

  /** The whole output, from argument `arg` on. */
  function Format(fmt: string, args: Args, arg: nat): string
    decreases |fmt|
  {
    if At(fmt, 0) == '\0' then ""
    else if fmt[0] != '%' then [fmt[0]] + Format(fmt[1..], args, arg)
    else
      var r := ReadSpec(fmt[1..], args, arg);
      var c := At(r.rest, 0);
      Converted(c, r.spec, args(r.arg)) + Format(AfterConversion(r.rest), args, NextArg(c, r.arg))
  }

  /** A number of characters that "%n" stores through a pointer. */
  datatype Store = Store(address: Word, value: nat)

  function StoreOf(c: char, a: Arg, pos: nat): seq<Store> {
    if c == 'n' then [Store(a.word, pos)] else []
  }

  /** Everything that is stored through pointers, in order, if the output begins at position `pos`. */
  function Stores(fmt: string, args: Args, arg: nat, pos: nat): seq<Store>
    decreases |fmt|
  {
    if At(fmt, 0) == '\0' then []
    else if fmt[0] != '%' then Stores(fmt[1..], args, arg, pos + 1)
    else
      var r := ReadSpec(fmt[1..], args, arg);
      var c := At(r.rest, 0);
      StoreOf(c, args(r.arg), pos)
      + Stores(AfterConversion(r.rest), args, NextArg(c, r.arg), pos + |Converted(c, r.spec, args(r.arg))|)
  }

  // ----- formats side by side

  /** Every '%' gets its conversion character. */
  predicate Complete(fmt: string, args: Args, arg: nat)
    decreases |fmt|
  {
    if fmt == "" then true
    else if fmt[0] == '\0' then false
    else if fmt[0] != '%' then Complete(fmt[1..], args, arg)
    else
      var r := ReadSpec(fmt[1..], args, arg);
      At(r.rest, 0) != '\0' && Complete(r.rest[1..], args, NextArg(r.rest[0], r.arg))
  }

  /** The argument after those that a format takes. */
  function ArgAfter(fmt: string, args: Args, arg: nat): nat
    decreases |fmt|
  {
    if At(fmt, 0) == '\0' then arg
    else if fmt[0] != '%' then ArgAfter(fmt[1..], args, arg)
    else
      var r := ReadSpec(fmt[1..], args, arg);
      ArgAfter(AfterConversion(r.rest), args, NextArg(At(r.rest, 0), r.arg))
  }

  function Extend(r: Reading, q: string): Reading {
    r.(rest := r.rest + q)
  }

  lemma {:induction false} FlagsExtend(r: Reading, q: string)
    requires ReadFlags(r).rest != ""
    ensures ReadFlags(Extend(r, q)) == Extend(ReadFlags(r), q)
    decreases |r.rest|
  {
    if IsFlag(At(r.rest, 0)) {
      var next := r.(spec := r.spec.(flags := WithFlag(r.spec.flags, r.rest[0])), rest := r.rest[1..]);
      FlagsExtend(next, q);
      assert (r.rest + q)[1..] == r.rest[1..] + q;
    }
  }

  lemma {:induction false} ScanExtends(s: string, q: string, i: nat, base: nat)
    requires i <= |s| && Scan(s, i, base) < |s|
    ensures Scan(s + q, i, base) == Scan(s, i, base)
    decreases |s| - i
  {
    if Accepted(s[i], base) {
      ScanExtends(s, q, i + 1, base);
    }
  }

  lemma WidthExtends(r: Reading, q: string, args: Args)
    requires ReadWidth(r, args).rest != ""
    ensures ReadWidth(Extend(r, q), args) == Extend(ReadWidth(r, args), q)
  {
    if IsDigit(At(r.rest, 0)) {
      DigitsExtend(r.rest, q);
    } else if At(r.rest, 0) == '*' {
      assert (r.rest + q)[1..] == r.rest[1..] + q;
    }
  }

  lemma DigitsExtend(s: string, q: string)
    requires Scan(s, 0, 10) < |s|
    ensures var end := Scan(s, 0, 10);
            Scan(s + q, 0, 10) == end && (s + q)[..end] == s[..end] && (s + q)[end..] == s[end..] + q
  {
    ScanExtends(s, q, 0, 10);
  }

  lemma PrecisionExtends(r: Reading, q: string, args: Args)
    requires ReadPrecision(r, args).rest != ""
    ensures ReadPrecision(Extend(r, q), args) == Extend(ReadPrecision(r, args), q)
  {
    if At(r.rest, 0) == '.' {
      var rest := r.rest[1..];
      assert (r.rest + q)[1..] == rest + q;
      if IsDigit(At(rest, 0)) {
        DigitsExtend(rest, q);
      } else if At(rest, 0) == '*' {
        assert (rest + q)[1..] == rest[1..] + q;
      }
    }
  }

  lemma QualifierExtends(r: Reading, q: string)
    requires ReadQualifier(r).rest != ""
    ensures ReadQualifier(Extend(r, q)) == Extend(ReadQualifier(r), q)
  {
    if |r.rest| > 1 {
      assert (r.rest + q)[1..] == r.rest[1..] + q;
      assert (r.rest + q)[2..] == r.rest[2..] + q;
    }
  }

  /** Reading a specification does not look beyond its conversion character. */
  lemma SpecExtends(fmt: string, q: string, args: Args, arg: nat)
    requires ReadSpec(fmt, args, arg).rest != ""
    ensures ReadSpec(fmt + q, args, arg) == Extend(ReadSpec(fmt, args, arg), q)
  {
    hide ReadFlags, ReadWidth, ReadPrecision, ReadQualifier;
    var r0 := Reading(NOTHING, fmt, arg);
    var r1 := ReadFlags(r0);
    var r2 := ReadWidth(r1, args);
    var r3 := ReadPrecision(r2, args);
    QualifierExtends(r3, q);
    PrecisionExtends(r2, q, args);
    WidthExtends(r1, q, args);
    FlagsExtend(r0, q);
  }

  /** One conversion of a format that another one follows. */
  lemma ConversionExtends(p: string, q: string, args: Args, arg: nat)
    requires Complete(p, args, arg) && p != "" && p[0] == '%'
    ensures var r := ReadSpec(p[1..], args, arg);
            && r.rest != "" && r.rest[0] != '\0' && |r.rest| < |p|
            && Format(p + q, args, arg) ==
               Converted(r.rest[0], r.spec, args(r.arg)) + Format(r.rest[1..] + q, args, NextArg(r.rest[0], r.arg))
  {
    hide ReadSpec, Converted, NextArg;
    var r := ReadSpec(p[1..], args, arg);
    SpecExtends(p[1..], q, args, arg);
    assert (p + q)[1..] == p[1..] + q;
    assert (r.rest + q)[1..] == r.rest[1..] + q;
  }

  /** Formatting two formats in a row is formatting the first, then the second with the arguments that are left. */
  lemma {:induction false} FormatConcat(p: string, q: string, args: Args, arg: nat)
    requires Complete(p, args, arg)
    ensures Format(p + q, args, arg) == Format(p, args, arg) + Format(q, args, ArgAfter(p, args, arg))
    decreases |p|
  {
    hide ReadSpec, Converted, NextArg;
    if p == "" {
      assert p + q == q;
    } else if p[0] != '%' {
      FormatConcat(p[1..], q, args, arg);
      assert (p + q)[1..] == p[1..] + q;
    } else {
      ConversionExtends(p, q, args, arg);
      var r := ReadSpec(p[1..], args, arg);
      var next := NextArg(r.rest[0], r.arg);
      FormatConcat(r.rest[1..], q, args, next);
      var text := Converted(r.rest[0], r.spec, args(r.arg));
      Associative(text, Format(r.rest[1..], args, next), Format(q, args, ArgAfter(r.rest[1..], args, next)));
    }
  }

  lemma Associative(a: string, b: string, c: string)
    ensures a + (b + c) == (a + b) + c
  {
  }

  lemma ConversionStores(p: string, q: string, args: Args, arg: nat, pos: nat)
    requires Complete(p, args, arg) && p != "" && p[0] == '%'
    ensures var r := ReadSpec(p[1..], args, arg);
            && r.rest != "" && r.rest[0] != '\0' && |r.rest| < |p|
            && Stores(p + q, args, arg, pos) ==
               StoreOf(r.rest[0], args(r.arg), pos)
               + Stores(r.rest[1..] + q, args, NextArg(r.rest[0], r.arg),
                        pos + |Converted(r.rest[0], r.spec, args(r.arg))|)
  {
    hide ReadSpec, Converted, NextArg;
    var r := ReadSpec(p[1..], args, arg);
    SpecExtends(p[1..], q, args, arg);
    assert (p + q)[1..] == p[1..] + q;
    assert (r.rest + q)[1..] == r.rest[1..] + q;
  }

  /** The stores of two formats in a row; the second counts the output of the first. */
  lemma {:induction false} StoresConcat(p: string, q: string, args: Args, arg: nat, pos: nat)
    requires Complete(p, args, arg)
    ensures Stores(p + q, args, arg, pos) ==
            Stores(p, args, arg, pos) + Stores(q, args, ArgAfter(p, args, arg), pos + |Format(p, args, arg)|)
    decreases |p|
  {
    hide ReadSpec, Converted, NextArg, StoreOf;
    if p == "" {
      assert p + q == q;
    } else if p[0] != '%' {
      StoresConcat(p[1..], q, args, arg, pos + 1);
      assert (p + q)[1..] == p[1..] + q;
    } else {
      ConversionStores(p, q, args, arg, pos);
      var r := ReadSpec(p[1..], args, arg);
      var next := NextArg(r.rest[0], r.arg);
      var pos' := pos + |Converted(r.rest[0], r.spec, args(r.arg))|;
      StoresConcat(r.rest[1..], q, args, next, pos');
      assert r.rest == [r.rest[0]] + r.rest[1..];
    }
  }

  /** "%n" stores the length of all output before it, whether or not it fits into the buffer. */
  lemma CountStored(p: string, args: Args)
    requires Complete(p, args, 0)
    ensures Stores(p + "%n", args, 0, 0) ==
            Stores(p, args, 0, 0) + [Store(args(ArgAfter(p, args, 0)).word, |Format(p, args, 0)|)]
  {
    hide Complete, ArgAfter, Format, Converted;
    StoresConcat(p, "%n", args, 0, 0);
    var after := ArgAfter(p, args, 0);
    assert "%n"[1..] == "n" && "n"[1..] == "";
    assert ReadSpec("n", args, after) == Reading(NOTHING, "n", after);
  }

  /** Text without '%' is copied. */
  lemma {:induction false} PlainText(p: string, args: Args, arg: nat)
    requires forall k :: 0 <= k < |p| ==> p[k] != '%' && p[k] != '\0'
    ensures Complete(p, args, arg) && Format(p, args, arg) == p && ArgAfter(p, args, arg) == arg
    decreases |p|
  {
    if p != "" {
      PlainText(p[1..], args, arg);
    }
  }

  lemma BarePercent(spec: Spec, a: Arg)
    ensures Converted('\0', spec, a) == "%"
  {
  }

  lemma LonePercent(args: Args, arg: nat)
    ensures Format("%", args, arg) == "%"
  {
    hide Converted, StringText, PointerText, IntegerText, Field;
    assert "%"[1..] == "";
    assert ReadSpec("", args, arg) == Reading(NOTHING, "", arg);
    BarePercent(NOTHING, args(arg));
  }

  /** A lone '%' at the end of a format is printed, and nothing after it. */
  lemma TrailingPercent(p: string, args: Args, arg: nat)
    requires Complete(p, args, arg)
    ensures Format(p + "%", args, arg) == Format(p, args, arg) + "%"
  {
    hide *;
    FormatConcat(p, "%", args, arg);
    LonePercent(args, ArgAfter(p, args, arg));
  }
}
