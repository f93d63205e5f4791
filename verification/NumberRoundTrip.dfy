/**
 Reading back what `number` printed: exactly when it works, for every word, width, precision and flags.
 */
module NumberRoundTrips {
  import opened Bitmaps
  import opened Numerals

  /** No blanks were added. */
  predicate Tight(num: Word, base: nat, width: int, precision: int, flags: Flags)
    requires 2 <= base <= 36
  {
    Padding(num, base, width, precision, flags) == 0 || PadSide(flags) == Inside
  }

  /** How many zeros stand before the digits. */
  function ZeroFill(num: Word, base: nat, width: int, precision: int, flags: Flags): nat
    requires 2 <= base <= 36
  {
    (if PadSide(flags) == Inside then Padding(num, base, width, precision, flags) else 0)
    + Positive(precision - |DigitsText(num, base, flags)|)
  }

  // ----- the shape of the text

  /** Without blanks the text is sign, prefix, zeros, digits. */
  lemma TightText(num: Word, base: nat, width: int, precision: int, flags: Flags)
    requires 2 <= base <= 36 && Tight(num, base, width, precision, flags)
    ensures NumberText(num, base, width, precision, flags)
         == SignText(num, flags) + PrefixText(base, flags)
            + (Repeat('0', ZeroFill(num, base, width, precision, flags)) + DigitsText(num, base, flags))
  {
    hide SignText, PrefixText, DigitsText, Needed;
    var text := NumberText(num, base, width, precision, flags);
    var zeros := Repeat('0', ZeroFill(num, base, width, precision, flags));
    assert Repeat(' ', 0) == "";
    assert text == SignText(num, flags) + PrefixText(base, flags) + zeros + DigitsText(num, base, flags);
  }

  /** A blank on the left is the first character, one on the right the last. */
  lemma BlanksShow(num: Word, base: nat, width: int, precision: int, flags: Flags)
    requires 2 <= base <= 36 && !Tight(num, base, width, precision, flags)
    ensures var text := NumberText(num, base, width, precision, flags);
            && |text| > |SignText(num, flags)| + |PrefixText(base, flags)| + 1
            && (if PadSide(flags) == Before then text[0] == ' '
                else text[|text| - 1] == ' ' && (SignText(num, flags) != "" ==> text[0] == SignText(num, flags)[0]))
  {
    hide SignText, PrefixText, DigitsText, Needed;
  }

  // ----- reading

  lemma ReadsAll(s: string, base: nat)
    requires AllAccepted(s, base) && base > 0
    ensures ParseU32(s, base) == Parsed(ValueOf(s, base) % WORD, |s|)
  {
    var end := Scan(s, 0, base);
    assert s[0..|s|] == s;
  }

  /** Reading in a given base does not get past a character that is no digit of it. */
  lemma ReadsNoFurther(s: string, base: nat, k: nat)
    requires k < |s| && !Accepted(s[k], base) && base > 0
    ensures ParseU32(s, base).end <= k
  {
    hide Accepted, ValueOf;
  }

  /** Zeros and digits read back in their own base. */
  lemma DigitsReadBack(zeros: nat, num: Word, base: nat, flags: Flags)
    requires 2 <= base <= 16
    ensures var s := Repeat('0', zeros) + DigitsText(num, base, flags);
            && AllAccepted(s, base)
            && ParseU32(s, base) == Parsed(Magnitude(num, flags), |s|)
  {
    hide AllAccepted, ParseU32, ValueOf, Numeral;
    var s := Repeat('0', zeros) + DigitsText(num, base, flags);
    NumeralRoundTrip(zeros, Magnitude(num, flags), base, flags.large);
    ReadsAll(s, base);
  }

  /** What follows the sign, when nothing in it is foreign to the base. */
  lemma BodyReadsBack(zeros: nat, num: Word, base: nat, flags: Flags)
    requires 2 <= base <= 16 && !(flags.special && base == 16)
    ensures var s := PrefixText(base, flags) + (Repeat('0', zeros) + DigitsText(num, base, flags));
            && AllAccepted(s, base) && s != ""
            && ParseU32(s, base) == Parsed(Magnitude(num, flags), |s|)
  {
    hide AllAccepted, ParseU32, DigitsText, Magnitude;
    var digits := DigitsText(num, base, flags);
    if PrefixText(base, flags) == "" {
      assert "" + (Repeat('0', zeros) + digits) == Repeat('0', zeros) + digits;
      DigitsReadBack(zeros, num, base, flags);
    } else {
      assert "0" + (Repeat('0', zeros) + digits) == Repeat('0', zeros + 1) + digits;
      DigitsReadBack(zeros + 1, num, base, flags);
    }
  }

  /** The 'x' of the prefix is no digit of base 16. */
  lemma HexPrefixStops(s: string, flags: Flags)
    requires flags.special
    ensures var text := PrefixText(16, flags) + s;
            |text| > 1 && text[0] == '0' && ParseU32(text, 16).end <= 1
  {
    hide ParseU32;
    var text := PrefixText(16, flags) + s;
    assert text[1] == DigitChar(33, flags.large);
    ReadsNoFurther(text, 16, 1);
  }

  /**
   In the base it was printed in, a number reads back whole exactly if no sign, no blank and no "0x" was printed.
   */
  lemma UnsignedRoundTrip(num: Word, base: nat, width: int, precision: int, flags: Flags)
    requires 2 <= base <= 16
    ensures var text := NumberText(num, base, width, precision, flags);
            ParseU32(text, base) == Parsed(num, |text|) <==>
            && SignText(num, flags) == ""
            && Tight(num, base, width, precision, flags)
            && !(flags.special && base == 16)
  {
    hide NumberText, ParseU32, Tight, PrefixText, DigitsText, ZeroFill;
    var text := NumberText(num, base, width, precision, flags);
    if !Tight(num, base, width, precision, flags) {
      BlanksShow(num, base, width, precision, flags);
      ReadsNoFurther(text, base, if PadSide(flags) == Before then 0 else |text| - 1);
    } else {
      TightText(num, base, width, precision, flags);
      var zeros := ZeroFill(num, base, width, precision, flags);
      var rest := Repeat('0', zeros) + DigitsText(num, base, flags);
      if SignText(num, flags) != "" {
        ReadsNoFurther(text, base, 0);
      } else {
        assert text == PrefixText(base, flags) + rest;
        if flags.special && base == 16 {
          HexPrefixStops(rest, flags);
        } else {
          BodyReadsBack(zeros, num, base, flags);
        }
      }
    }
  }

  lemma SignedReadsNoFurther(s: string, base: nat, k: nat)
    requires k < |s| && !Accepted(s[k], base) && base > 0 && (k == 0 ==> s[0] != '-')
    ensures ParseS32(s, base).end <= k
  {
    hide Accepted, ValueOf;
    if s[0] == '-' {
      ReadsNoFurther(s[1..], base, k - 1);
    } else {
      ReadsNoFurther(s, base, k);
    }
  }

  /**
   Read as a signed number, the text gives back the word's signed value, -2^31 included, exactly if no '+' and
   no blank and no "0x" was printed.
   */
  lemma SignedRoundTrip(num: Word, base: nat, width: int, precision: int, flags: Flags)
    requires 2 <= base <= 16
    ensures var text := NumberText(num, base, width, precision, flags);
            ParseS32(text, base) == Parsed(Signed(num), |text|) <==>
            && (SignText(num, flags) == "" || SignText(num, flags) == "-")
            && Tight(num, base, width, precision, flags)
            && !(flags.special && base == 16)
  {
    hide NumberText, ParseS32, ParseU32, Tight, PrefixText, DigitsText, ZeroFill, SignText;
    var text := NumberText(num, base, width, precision, flags);
    if !Tight(num, base, width, precision, flags) {
      BlanksShow(num, base, width, precision, flags);
      SignedReadsNoFurther(text, base, if PadSide(flags) == Before then 0 else |text| - 1);
    } else {
      TightText(num, base, width, precision, flags);
      var zeros := ZeroFill(num, base, width, precision, flags);
      SignedTightText(text, zeros, num, base, flags);
    }
  }

  lemma SignIsNoDigit(num: Word, flags: Flags, base: nat)
    ensures SignText(num, flags) != "" ==> !Accepted(SignText(num, flags)[0], base)
    ensures SignText(num, flags) != "" && SignText(num, flags) != "-" ==> SignText(num, flags)[0] != '-'
  {
  }

  lemma DigitsAreNoMinus(s: string, base: nat)
    requires AllAccepted(s, base) && s != ""
    ensures s[0] != '-'
  {
  }

  lemma SignedTightText(text: string, zeros: nat, num: Word, base: nat, flags: Flags)
    requires 2 <= base <= 16
    requires text == SignText(num, flags) + PrefixText(base,
                                                       flags) + (Repeat('0', zeros) + DigitsText(num, base, flags))
    ensures ParseS32(text, base) == Parsed(Signed(num), |text|) <==>
            (SignText(num, flags) == "" || SignText(num, flags) == "-") && !(flags.special && base == 16)
  {
    hide ParseS32, ParseU32, PrefixText, DigitsText, AllAccepted, Accepted, Signed, Magnitude, SignText;
    SignAndMagnitude(num, flags);
    var rest := Repeat('0', zeros) + DigitsText(num, base, flags);
    var body := PrefixText(base, flags) + rest;
    assert text == SignText(num, flags) + body;
    if SignText(num, flags) != "" && SignText(num, flags) != "-" {
      SignIsNoDigit(num, flags, base);
      SignedReadsNoFurther(text, base, 0);
    } else if flags.special && base == 16 {
      HexPrefixStops(rest, flags);
      SignedMeansUnsigned(SignText(num, flags), body, base);
    } else {
      BodyReadsBack(zeros, num, base, flags);
      DigitsAreNoMinus(body, base);
      SignedMeansUnsigned(SignText(num, flags), body, base);
    }
  }

  /** Negation modulo 2^32 gives a negative number's word back. */
  lemma SignAndMagnitude(num: Word, flags: Flags)
    ensures SignText(num, flags) == "" ==> Magnitude(num, flags) == num
    ensures SignText(num, flags) == "-" ==> (WORD - Magnitude(num, flags)) % WORD == num
  {
  }

  lemma SignedMeansUnsigned(sign: string, body: string, base: nat)
    requires sign == "" || sign == "-"
    requires body != "" && body[0] != '-'
    ensures var p := ParseU32(body, base);
            ParseS32(sign + body, base) ==
            Parsed(Signed(if sign == "" then p.value else (WORD - p.value) % WORD), |sign| + p.end)
  {
    hide ParseU32;
    if sign == "" {
      assert sign + body == body;
    } else {
      assert (sign + body)[1..] == body;
    }
  }

  // ----- base 0

  lemma GuessingReadsNoFurther(s: string, k: nat)
    requires k < |s| && !IsHexDigit(s[k]) && StartOf(s, 0) <= k
    ensures ParseU32(s, 0).end <= k
  {
    hide ValueOf;
  }

  lemma GuessingReadsRest(s: string)
    requires AllAccepted(s[StartOf(s, 0)..], BaseOf(s, 0))
    ensures ParseU32(s, 0) == Parsed(ValueOf(s[StartOf(s, 0)..], BaseOf(s, 0)) % WORD, |s|)
  {
    hide BaseOf, StartOf, Accepted, ValueOf;
    var b, start := BaseOf(s, 0), StartOf(s, 0);
    var end := Scan(s, start, b);
    assert end == |s|;
    assert s[start..|s|] == s[start..];
  }

  /** The prefix tells the reader the base, unless it is printed in capitals: "0X" is not understood. */
  lemma GuessedBaseRoundTrip(num: Word, base: nat, width: int, precision: int, flags: Flags)
    requires base == 8 || base == 16
    requires flags.special
    ensures var text := NumberText(num, base, width, precision, flags);
            ParseU32(text, 0) == Parsed(num, |text|) <==>
            && SignText(num, flags) == ""
            && Tight(num, base, width, precision, flags)
            && !(flags.large && base == 16)
  {
    hide NumberText, ParseU32, Tight, DigitsText, ZeroFill;
    var text := NumberText(num, base, width, precision, flags);
    if !Tight(num, base, width, precision, flags) {
      BlanksShow(num, base, width, precision, flags);
      GuessingReadsNoFurther(text, if PadSide(flags) == Before then 0 else |text| - 1);
    } else {
      TightText(num, base, width, precision, flags);
      var zeros := ZeroFill(num, base, width, precision, flags);
      var rest := Repeat('0', zeros) + DigitsText(num, base, flags);
      if SignText(num, flags) != "" {
        GuessingReadsNoFurther(text, 0);
      } else {
        assert text == PrefixText(base, flags) + rest;
        PrefixedReadsBack(zeros, num, base, flags);
      }
    }
  }

  lemma PrefixedReadsBack(zeros: nat, num: Word, base: nat, flags: Flags)
    requires (base == 8 || base == 16) && flags.special
    ensures var s := PrefixText(base, flags) + (Repeat('0', zeros) + DigitsText(num, base, flags));
            ParseU32(s, 0) == Parsed(Magnitude(num, flags), |s|) <==> !(flags.large && base == 16)
  {
    hide ParseU32, ValueOf, Numeral, Magnitude;
    var rest := Repeat('0', zeros) + DigitsText(num, base, flags);
    var s := PrefixText(base, flags) + rest;
    NumeralRoundTrip(zeros, Magnitude(num, flags), base, flags.large);
    assert rest != "" && Accepted(rest[0], base);
    if flags.large && base == 16 {
      assert s[1] == 'X';
      GuessingReadsNoFurther(s, 1);
    } else {
      assert s[StartOf(s, 0)..] == rest;
      GuessingReadsRest(s);
    }
  }
}
