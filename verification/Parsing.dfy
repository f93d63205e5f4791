/**
 `str_to_u32int` and `str_to_s32int` of libcpp/cstring.cpp, and formats whose output they read back.
 */
module Parsing {
  import opened Bitmaps
  import opened Numerals
  import opened NumberRoundTrips
  import opened Formatting
  import opened Printing
  import opened Vsnprintfs

  lemma Wraps(x: nat, k: nat)
    ensures (x + k * WORD) % WORD == x % WORD
  {
  }

  /** Reducing modulo 2^32 at every digit is reducing once at the end. */
  lemma WrapEveryDigit(v: nat, base: nat, digit: nat)
    ensures (v % WORD * base + digit) % WORD == (v * base + digit) % WORD
  {
    var q, r := v / WORD, v % WORD;
    assert v * base == r * base + q * base * WORD by {
      assert v == r + q * WORD;
      Distribute(r, q, base);
    }
    Wraps(r * base + digit, q * base);
  }

  lemma Distribute(r: nat, q: nat, base: nat)
    ensures (r + q * WORD) * base == r * base + q * base * WORD
  {
  }

  /** Lines 19-29. */
  method ChooseBase(cp: string, base: nat) returns (b: nat, i: nat)
    ensures b == BaseOf(cp, base) && i == StartOf(cp, base)
  {
    b, i := base, 0;
    if b == 0 {
      b := 10;
      if At(cp, i) == '0' {
        b := 8;
        i := i + 1;
        if At(cp, i) == 'x' && IsHexDigit(At(cp, i + 1)) {
          i := i + 1;
          b := 16;
        }
      }
    }
  }

  /** The condition of lines 30-31, evaluated left to right. */
  method DigitAt(cp: string, i: nat, base: nat) returns (more: bool, value: nat)
    ensures more <==> Accepted(At(cp, i), base)
    ensures more ==> i < |cp| && value == DigitValue(cp[i])
  {
    value := 0;
    more := IsHexDigit(At(cp, i));
    if more {
      value := DigitValue(At(cp, i));
      more := value < base;
    }
  }

  /** `str_to_u32int`; 32-bit arithmetic wraps. */
  method StrToU32Int(cp: string, base: Word) returns (result: Word, end: nat)
    ensures Parsed(result, end) == ParseU32(cp, base)
  {
    hide IsHexDigit, ValueOf, DigitValue, BaseOf, StartOf;
    var b, i := ChooseBase(cp, base);
    ghost var start := i;
    result := 0;
    NoDigits(b);
    assert cp[i..i] == "";
    var more, value := DigitAt(cp, i, b);
    while more
      invariant start <= i <= |cp| && AllAccepted(cp[start..i], b)
      invariant result == ValueOf(cp[start..i], b) % WORD
      invariant Scan(cp, i, b) == Scan(cp, start, b)
      invariant more <==> Accepted(At(cp, i), b)
      invariant more ==> i < |cp| && value == DigitValue(cp[i])
      decreases |cp| - i
    {
      NextValue(cp, start, i, b);
      result := (result * b + value) % WORD;
      i := i + 1;
      more, value := DigitAt(cp, i, b);
    }
    end := i;
  }

  lemma NextValue(cp: string, start: nat, i: nat, base: nat)
    requires start <= i < |cp| && AllAccepted(cp[start..i], base) && Accepted(cp[i], base)
    ensures AllAccepted(cp[start..i + 1], base)
    ensures ValueOf(cp[start..i + 1],
                    base) % WORD == (ValueOf(cp[start..i], base) % WORD * base + DigitValue(cp[i])) % WORD
  {
    hide IsHexDigit, ValueOf, DigitValue;
    ValueOfAppend(cp[start..i], cp[i], base);
    WrapEveryDigit(ValueOf(cp[start..i], base), base, DigitValue(cp[i]));
    assert cp[start..i + 1] == cp[start..i] + [cp[i]];
  }

  /** `str_to_s32int` */
  method StrToS32Int(cp: string, base: Word) returns (result: int, end: nat)
    ensures Parsed(result, end) == ParseS32(cp, base)
  {
    hide ParseU32;
    if At(cp, 0) == '-' {
      var value;
      value, end := StrToU32Int(cp[1..], base);
      return Signed((WORD - value) % WORD), end + 1;
    }
    var value;
    value, end := StrToU32Int(cp, base);
    result := Signed(value);
  }

  // ----- formats that read back

  /** A format that is a single specification. */
  lemma SingleConversion(c: char, args: Args, arg: nat)
    requires !IsFlag(c) && !IsDigit(c) && c != '*' && c != '.' && c !in "hlLZz" && c != '\0'
    ensures Format(['%', c], args, arg) == Converted(c, NOTHING, args(arg))
  {
    hide Converted, NextArg;
    assert ['%', c][1..] == [c] && [c][1..] == "";
    assert ReadSpec([c], args, arg) == Reading(NOTHING, [c], arg);
  }

  /** "%d" prints every word so that it reads back as the signed number it was. */
  lemma DecimalReadsBack(args: Args, arg: nat)
    ensures var text := Format("%d", args, arg);
            ParseS32(text, 10) == Parsed(Signed(args(arg).word), |text|)
  {
    hide NumberText, ParseS32, Format, Needed;
    SingleConversion('d', args, arg);
    SignedRoundTrip(args(arg).word, 10, -1, -1, NO_FLAGS.(sign := true));
  }

  lemma HashConversion(c: char, args: Args, arg: nat)
    requires c == 'o' || c == 'x' || c == 'X'
    ensures Format(['%', '#', c], args, arg) == Converted(c, NOTHING.(flags := NO_FLAGS.(special := true)), args(arg))
  {
    hide Converted, NextArg;
    assert ['%', '#', c][1..] == ['#', c] && ['#', c][1..] == [c] && [c][1..] == "";
    var spec := NOTHING.(flags := NO_FLAGS.(special := true));
    assert ReadFlags(Reading(spec, [c], arg)) == Reading(spec, [c], arg);
    assert ReadSpec(['#', c], args, arg) == Reading(spec, [c], arg);
  }

  /** "%#o" and "%#x" print every word so that base 0 reads it back; "%#X" never does. */
  lemma HashReadsBackIff(c: char, args: Args, arg: nat)
    requires c == 'o' || c == 'x' || c == 'X'
    ensures var text := Format(['%', '#', c], args, arg);
            ParseU32(text, 0) == Parsed(args(arg).word, |text|) <==> c != 'X'
  {
    hide NumberText, ParseU32, Format, Needed;
    HashConversion(c, args, arg);
    var flags := NO_FLAGS.(special := true);
    if c == 'o' {
      GuessedBaseRoundTrip(args(arg).word, 8, -1, -1, flags);
    } else if c == 'x' {
      GuessedBaseRoundTrip(args(arg).word, 16, -1, -1, flags);
    } else {
      GuessedBaseRoundTrip(args(arg).word, 16, -1, -1, flags.(large := true));
    }
  }

  /** "%u", "%o", "%x", "%X" and "%p" print every word so that it reads back in their own base. */
  lemma UnsignedReadsBack(c: char, args: Args, arg: nat)
    requires c in "uoxXp"
    ensures var text, base := Format(['%', c], args, arg), if c == 'u' then 10 else if c == 'o' then 8 else 16;
            ParseU32(text, base) == Parsed(args(arg).word, |text|)
  {
    hide NumberText, ParseU32, Format, Needed;
    SingleConversion(c, args, arg);
    var w := args(arg).word;
    match c
    case 'u' => UnsignedRoundTrip(w, 10, -1, -1, NO_FLAGS);
    case 'o' => UnsignedRoundTrip(w, 8, -1, -1, NO_FLAGS);
    case 'x' => UnsignedRoundTrip(w, 16, -1, -1, NO_FLAGS);
    case 'X' => UnsignedRoundTrip(w, 16, -1, -1, NO_FLAGS.(large := true));
    case _ => UnsignedRoundTrip(w, 16, 8, -1, NO_FLAGS.(zeropad := true));
  }

  // ----- reading from the buffer

  lemma NulIsNoDigit(base: nat)
    ensures !Accepted('\0', base) && !IsHexDigit('\0')
  {
  }

  /** Whatever the memory after a terminating NUL holds, reading stops there. */
  lemma NulEndsReading(text: string, junk: string, base: nat)
    ensures ParseU32(text + ['\0'] + junk, base) == ParseU32(text, base)
  {
    hide Accepted, ValueOf, IsHexDigit;
    var s := text + ['\0'] + junk;
    NulIsNoDigit(BaseOf(text, base));
    assert BaseOf(s, base) == BaseOf(text, base) && StartOf(s, base) == StartOf(text, base);
    var b, start := BaseOf(text, base), StartOf(text, base);
    var end := Scan(text, start, b);
    SameScan(text, s, start, b);
    assert s[start..end] == text[start..end];
  }

  lemma {:induction false} SameScan(text: string, s: string, i: nat, base: nat)
    requires i <= |text| < |s| && s[..|text|] == text && !Accepted(s[|text|], base)
    ensures Scan(s, i, base) == Scan(text, i, base)
    decreases |text| - i
  {
    if i < |text| {
      assert s[i] == s[..|text|][i];
      if Accepted(text[i], base) {
        SameScan(text, s, i + 1, base);
      }
    }
  }

  /** A buffer that is large enough reads like the text that was printed into it. */
  lemma BufferReadsLikeText(mem: seq<char>, size: nat, text: string, base: nat)
    requires |text| < size <= |mem|
    ensures ParseU32(Bounded(mem, size, text), base) == ParseU32(text, base)
    ensures ParseS32(Bounded(mem, size, text), base) == ParseS32(text, base)
  {
    hide ParseU32;
    var junk := mem[|text| + 1..];
    var s := text + ['\0'] + junk;
    assert Bounded(mem, size, text) == s;
    NulEndsReading(text, junk, base);
    if text != "" {
      assert s[1..] == text[1..] + ['\0'] + junk;
      NulEndsReading(text[1..], junk, base);
    }
  }

  /** `vsnprintf` with "%d" and then `str_to_s32int` on the same buffer give the number back. */
  lemma BufferRoundTrip(mem: seq<char>, size: nat, args: Args)
    requires |Format("%d", args, 0)| < size <= |mem|
    ensures ParseS32(Bounded(mem, size, Format("%d", args, 0)), 10)
         == Parsed(Signed(args(0).word), |Format("%d", args, 0)|)
  {
    hide *;
    BufferReadsLikeText(mem, size, Format("%d", args, 0), 10);
    DecimalReadsBack(args, 0);
  }
}
