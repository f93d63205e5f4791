/**
 Numbers as text: what `number` of libcpp/cstring.cpp prints, what `str_to_u32int` and `str_to_s32int`
 read, and when reading undoes printing.
 */
module Numerals {
  import opened Bitmaps

  const HALF: nat := 0x8000_0000

  /** A `uint32_t`. */
  type Word = uint32

  /** The value of a word as an `int32_t`. */
  function Signed(w: Word): int {
    if w < HALF then w else w - WORD
  }

  /** The flag bits of lines 8-14. */
  datatype Flags = Flags(zeropad: bool, sign: bool, plus: bool, space: bool, left: bool, special: bool, large: bool)

  const NO_FLAGS := Flags(false, false, false, false, false, false, false)

  // ----- printing

  /** small_digits[d] and large_digits[d] */
  function DigitChar(d: nat, large: bool): char
    requires d < 36
  {
    if d < 10 then '0' + d as char else (if large then 'A' else 'a') + (d - 10) as char
  }

  /** The digits of `n`, most significant first. */
  function Numeral(n: nat, base: nat, large: bool): (s: string)
    requires 2 <= base <= 36
    ensures s != []
    decreases n
  {
    if n < base then [DigitChar(n, large)] else Numeral(n / base, base, large) + [DigitChar(n % base, large)]
  }

  function Repeat(c: char, count: int): (s: string)
    ensures |s| == Positive(count) && forall k :: 0 <= k < |s| ==> s[k] == c
    decreases Positive(count)
  {
    if count <= 0 then [] else [c] + Repeat(c, count - 1)
  }

  function Positive(n: int): nat {
    if n > 0 then n else 0
  }

  function Larger(a: int, b: int): int {
    if a >= b then a else b
  }

  predicate Negative(num: Word, flags: Flags) {
    flags.sign && num >= HALF
  }

  function SignText(num: Word, flags: Flags): string {
    if !flags.sign then ""
    else if num >= HALF then "-"
    else if flags.plus then "+"
    else if flags.space then " "
    else ""
  }

  function PrefixText(base: nat, flags: Flags): string {
    if !flags.special then ""
    else if base == 8 then "0"
    else if base == 16 then ['0', DigitChar(33, flags.large)]
    else ""
  }

  function Magnitude(num: Word, flags: Flags): Word {
    if Negative(num, flags) then WORD - num else num
  }

  function DigitsText(num: Word, base: nat, flags: Flags): (s: string)
    requires 2 <= base <= 36
    ensures s != []
  {
    Numeral(Magnitude(num, flags), base, flags.large)
  }

  /** Sign, prefix, and digits filled up to the precision. */
  function Needed(num: Word, base: nat, precision: int, flags: Flags): nat
    requires 2 <= base <= 36
  {
    |SignText(num, flags)| + |PrefixText(base, flags)| + Larger(precision, |DigitsText(num, base, flags)|)
  }

  /** How many characters short of the width. */
  function Padding(num: Word, base: nat, width: int, precision: int, flags: Flags): nat
    requires 2 <= base <= 36
  {
    Positive(width - Needed(num, base, precision, flags))
  }

  /** Where the padding goes. */
  datatype Side = Before | Inside | After

  function PadSide(flags: Flags): Side {
    if flags.left then After else if flags.zeropad then Inside else Before
  }

  /** Everything `number` prints, without a bound. */
  function NumberText(num: Word, base: nat, width: int, precision: int, flags: Flags): string
    requires 2 <= base <= 36
  {
    var digits := DigitsText(num, base, flags);
    var pad := Padding(num, base, width, precision, flags);
    var side := PadSide(flags);
    Repeat(' ', if side == Before then pad else 0)
    + SignText(num, flags)
    + PrefixText(base, flags)
    + Repeat('0', (if side == Inside then pad else 0) + Positive(precision - |digits|))
    + digits
    + Repeat(' ', if side == After then pad else 0)
  }

  /** The output is as wide as asked, and wider only when sign, prefix and digits need it. */
  lemma NumberTextLength(num: Word, base: nat, width: int, precision: int, flags: Flags)
    requires 2 <= base <= 36
    ensures |NumberText(num, base, width, precision, flags)| == Larger(width, Needed(num, base, precision, flags))
  {
    hide SignText, PrefixText, DigitsText;
  }

  // ----- reading

  predicate IsDigit(c: char) {
    '0' <= c <= '9'
  }

  predicate IsHexDigit(c: char) {
    IsDigit(c) || 'a' <= c <= 'f' || 'A' <= c <= 'F'
  }

  function DigitValue(c: char): nat
    requires IsHexDigit(c)
  {
    if IsDigit(c) then (c - '0') as nat
    else if 'a' <= c then (c - 'a') as nat + 10
    else (c - 'A') as nat + 10
  }

  /** The condition of the loop at lines 30-31. */
  predicate Accepted(c: char, base: nat) {
    IsHexDigit(c) && DigitValue(c) < base
  }

  /** A C string reads as zero at its end. */
  function At(s: string, i: nat): char {
    if i < |s| then s[i] else '\0'
  }

  /** Where reading digits from `i` on stops. */
  function Scan(s: string, i: nat, base: nat): (end: nat)
    requires i <= |s|
    ensures i <= end <= |s|
    ensures forall k :: i <= k < end ==> Accepted(s[k], base)
    ensures !Accepted(At(s, end), base)
    decreases |s| - i
  {
    if i < |s| && Accepted(s[i], base) then Scan(s, i + 1, base) else i
  }

  predicate AllAccepted(s: string, base: nat) {
    forall k :: 0 <= k < |s| ==> Accepted(s[k], base)
  }

  /** The number that digits stand for. */
  function ValueOf(s: string, base: nat): nat
    requires AllAccepted(s, base)
  {
    if s == [] then 0 else ValueOf(s[..|s| - 1], base) * base + DigitValue(s[|s| - 1])
  }

  datatype Parsed<T> = Parsed(value: T, end: nat)

  /** Base 0 asks the text: lines 19-29. */
  function BaseOf(s: string, base: nat): nat {
    if base != 0 then base
    else if At(s, 0) != '0' then 10
    else if At(s, 1) == 'x' && IsHexDigit(At(s, 2)) then 16
    else 8
  }

  function StartOf(s: string, base: nat): (i: nat)
    ensures i <= |s|
  {
    if base != 0 || At(s, 0) != '0' then 0
    else if At(s, 1) == 'x' && IsHexDigit(At(s, 2)) then 2
    else 1
  }

  /** `str_to_u32int`: the longest run of digits, modulo 2^32, and where it ends. */
  function ParseU32(s: string, base: nat): (p: Parsed<Word>)
    ensures p.end <= |s|
  {
    var b, start := BaseOf(s, base), StartOf(s, base);
    var end := Scan(s, start, b);
    Parsed(ValueOf(s[start..end], b) % WORD, end)
  }

  /** `str_to_s32int` */
  function ParseS32(s: string, base: nat): Parsed<int> {
    if At(s, 0) == '-' then
      var p := ParseU32(s[1..], base);
      Parsed(Signed((WORD - p.value) % WORD), p.end + 1)
    else
      var p := ParseU32(s, base);
      Parsed(Signed(p.value), p.end)
  }

  // ----- reading undoes printing

  lemma DigitRoundTrip(d: nat, base: nat, large: bool)
    requires d < base <= 16
    ensures Accepted(DigitChar(d, large), base) && DigitValue(DigitChar(d, large)) == d
  {
  }

  lemma ValueOfAppend(s: string, c: char, base: nat)
    requires AllAccepted(s, base) && Accepted(c, base)
    ensures AllAccepted(s + [c], base) && ValueOf(s + [c], base) == ValueOf(s, base) * base + DigitValue(c)
  {
    assert (s + [c])[..|s|] == s;
  }

  lemma NoDigits(base: nat)
    ensures AllAccepted("", base) && ValueOf("", base) == 0
  {
  }

  lemma {:induction false} ZerosAreNothing(count: nat, base: nat)
    requires base >= 1
    ensures AllAccepted(Repeat('0', count), base) && ValueOf(Repeat('0', count), base) == 0
    decreases count
  {
    hide ValueOf, Accepted, DigitValue, AllAccepted;
    if count == 0 {
      NoDigits(base);
    } else {
      ZerosAreNothing(count - 1, base);
      ZeroDigit(base);
      RepeatAtEnd('0', count);
      ValueOfAppend(Repeat('0', count - 1), '0', base);
      assert 0 * base == 0;
    }
  }

  lemma ZeroDigit(base: nat)
    requires base >= 1
    ensures Accepted('0', base) && DigitValue('0') == 0
  {
  }

  lemma RepeatAtEnd(c: char, count: nat)
    requires count > 0
    ensures Repeat(c, count) == Repeat(c, count - 1) + [c]
  {
  }

  lemma DivisionSplits(n: nat, base: nat)
    requires base > 0
    ensures n / base * base + n % base == n
  {
  }

  /** One more digit. */
  lemma DigitAppended(s: string, n: nat, base: nat, large: bool)
    requires 2 <= base <= 16 && AllAccepted(s, base) && ValueOf(s, base) == n / base
    ensures var t := s + [DigitChar(n % base, large)]; AllAccepted(t, base) && ValueOf(t, base) == n
  {
    hide Accepted, DigitChar, DigitValue, AllAccepted, ValueOf;
    var c := DigitChar(n % base, large);
    DigitRoundTrip(n % base, base, large);
    ValueOfAppend(s, c, base);
    DivisionSplits(n, base);
  }

  /** Digits, after any number of zeros, stand for the number they were made from. */
  lemma {:induction false} NumeralRoundTrip(zeros: nat, n: nat, base: nat, large: bool)
    requires 2 <= base <= 16
    ensures var s := Repeat('0', zeros) + Numeral(n, base, large); AllAccepted(s, base) && ValueOf(s, base) == n
    decreases n
  {
    hide Accepted, DigitChar, DigitValue, AllAccepted, ValueOf, Repeat;
    if n < base {
      ZerosAreNothing(zeros, base);
      DigitAppended(Repeat('0', zeros), n, base, large);
    } else {
      NumeralRoundTrip(zeros, n / base, base, large);
      var s := Repeat('0', zeros) + Numeral(n / base, base, large);
      DigitAppended(s, n, base, large);
      assert s + [DigitChar(n % base, large)] == Repeat('0', zeros) + Numeral(n, base, large);
    }
  }

  // ----- what is read

  /** The sixteen digits, in both cases, and no others. */
  lemma DigitMeans(c: char, d: nat)
    requires d < 16
    ensures IsHexDigit(c) && DigitValue(c) == d <==> c == "0123456789abcdef"[d] || c == "0123456789ABCDEF"[d]
    ensures c == DigitChar(d, false) <==> c == "0123456789abcdef"[d]
    ensures c == DigitChar(d, true) <==> c == "0123456789ABCDEF"[d]
  {
  }

  /** In a given base, `str_to_u32int` reads the longest run of digits below the base, and its value modulo 2^32. */
  lemma ReadsLongestRun(s: string, base: nat, end: nat)
    requires base > 0 && end <= |s| && (forall k :: 0 <= k < end ==> Accepted(s[k], base))
    requires end == |s| || !Accepted(s[end], base)
    ensures AllAccepted(s[..end], base) && ParseU32(s, base) == Parsed(ValueOf(s[..end], base) % WORD, end)
  {
    hide Accepted, ValueOf;
    var stop := Scan(s, 0, base);
    assert stop == end;
    assert s[0..end] == s[..end];
  }

  /** Without a base, "0x" and a digit means base 16, any other "0" base 8, and everything else base 10. */
  lemma ReadsGuessedBase(s: string)
    ensures var p := ParseU32(s, 0);
            if |s| > 2 && s[0] == '0' && s[1] == 'x' && IsHexDigit(s[2]) then
              p == (var q := ParseU32(s[2..], 16); q.(end := q.end + 2))
            else if s != "" && s[0] == '0' then
              p == (var q := ParseU32(s[1..], 8); q.(end := q.end + 1))
            else p == ParseU32(s, 10)
  {
    hide Accepted, ValueOf, IsHexDigit;
    assert !IsHexDigit('\0') by { NulIsNoHexDigit(); }
    var b, start := BaseOf(s, 0), StartOf(s, 0);
    ScanShifts(s, start, start, b);
    var end := Scan(s, start, b);
    assert s[start..][0..end - start] == s[start..end];
  }

  lemma NulIsNoHexDigit()
    ensures !IsHexDigit('\0')
  {
  }

  lemma {:induction false} ScanShifts(s: string, start: nat, i: nat, base: nat)
    requires start <= i <= |s|
    ensures Scan(s[start..], i - start, base) == Scan(s, i, base) - start
    decreases |s| - i
  {
    hide Accepted;
    if i < |s| && Accepted(s[i], base) {
      ScanShifts(s, start, i + 1, base);
    }
  }
}
