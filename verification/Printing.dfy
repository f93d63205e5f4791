/**
 `number` and `vsnprintf` of libcpp/cstring.cpp, writing into a buffer of limited size: whatever does not fit
 is counted but not stored.
 */
module Printing {
  import opened Bitmaps
  import opened Numerals
  import opened Formatting
  import opened Orders

  // ----- storing text

  /** Memory after `text` is stored from `pos` on, where only the first `limit` characters may be written. */
  function Stored(mem: seq<char>, limit: nat, pos: nat, text: string): (r: seq<char>)
    requires limit <= |mem|
    ensures |r| == |mem|
    decreases |text|
  {
    if text == "" then mem
    else Stored(if pos < limit then mem[pos := text[0]] else mem, limit, pos + 1, text[1..])
  }

  lemma StoredNothing(mem: seq<char>, limit: nat, pos: nat)
    requires limit <= |mem|
    ensures Stored(mem, limit, pos, "") == mem
  {
  }

  lemma {:induction false} StoredConcat(mem: seq<char>, limit: nat, pos: nat, a: string, b: string)
    requires limit <= |mem|
    ensures Stored(Stored(mem, limit, pos, a), limit, pos + |a|, b) == Stored(mem, limit, pos, a + b)
    decreases |a|
  {
    if a == "" {
      assert a + b == b;
    } else {
      StoredConcat(if pos < limit then mem[pos := a[0]] else mem, limit, pos + 1, a[1..], b);
      assert (a + b)[1..] == a[1..] + b;
    }
  }

  /** Position by position: text inside the limit, the old memory everywhere else. */
  lemma {:induction false} StoredAt(mem: seq<char>, limit: nat, pos: nat, text: string, k: nat)
    requires limit <= |mem| && k < |mem|
    ensures Stored(mem, limit, pos, text)[k] == if pos <= k < pos + |text| && k < limit then text[k - pos] else mem[k]
    decreases |text|
  {
    if text != "" {
      StoredAt(if pos < limit then mem[pos := text[0]] else mem, limit, pos + 1, text[1..], k);
    }
  }

  /** What a buffer of `size` characters ends up with: as much of the text as fits, and a NUL. */
  function Bounded(mem: seq<char>, size: nat, text: string): seq<char>
    requires size <= |mem|
  {
    if size == 0 then mem
    else
      var n := if |text| < size then |text| else size - 1;
      text[..n] + ['\0'] + mem[n + 1..]
  }

  /** Lines 383-387. */
  lemma TerminatorBounds(mem: seq<char>, size: nat, text: string)
    requires size <= |mem|
    ensures var stored := Stored(mem, size, 0, text);
            Bounded(mem, size, text) ==
            if |text| < size then stored[|text| := '\0'] else if size > 0 then stored[size - 1 := '\0'] else stored
  {
    var stored := Stored(mem, size, 0, text);
    forall k | 0 <= k < |mem|
      ensures stored[k] == if k < |text| && k < size then text[k] else mem[k]
    {
      StoredAt(mem, size, 0, text, k);
    }
  }

  method Put(buf: array<char>, limit: nat, str: nat, c: char) returns (str': nat)
    requires limit <= buf.Length
    modifies buf
    ensures str' == str + 1 && buf[..] == Stored(old(buf[..]), limit, str, [c])
  {
    if str < limit {
      buf[str] := c;
    }
    str' := str + 1;
  }

  /** while (count-- > 0) { if (str <= end) *str = c; ++str; } */
  method Fill(buf: array<char>, limit: nat, str: nat, c: char, count: int) returns (str': nat, count': int)
    requires limit <= buf.Length
    modifies buf
    ensures str' == str + |Repeat(c, count)| && buf[..] == Stored(old(buf[..]), limit, str, Repeat(c, count))
    ensures count' == (if count > 0 then 0 else count) - 1
  {
    str', count' := str, count;
    while count' > 0
      invariant count > 0 ==> count' >= 0
      invariant count <= 0 ==> count' == count
      invariant str' + |Repeat(c, count')| == str + |Repeat(c, count)|
      invariant Stored(buf[..], limit, str', Repeat(c, count')) == Stored(old(buf[..]), limit, str, Repeat(c, count))
    {
      count' := count' - 1;
      StoredConcat(buf[..], limit, str', [c], Repeat(c, count'));
      str' := Put(buf, limit, str', c);
    }
    count' := count' - 1;
  }

  // ----- number

  /** The last character first. */
  function Reversed(s: string): (r: string)
    ensures |r| == |s|
  {
    if s == "" then "" else [s[|s| - 1]] + Reversed(s[..|s| - 1])
  }

  /** A number below 2^k has at most k digits, in any base. */
  lemma {:induction false} DigitCount(n: nat, base: nat, large: bool, k: nat)
    requires 2 <= base <= 36 && n < Pow2(k) && k > 0
    ensures |Numeral(n, base, large)| <= k
    decreases k
  {
    if n >= base {
      Halves(n, base, k);
      DigitCount(n / base, base, large, k - 1);
    }
  }

  lemma Halves(n: nat, base: nat, k: nat)
    requires 2 <= base <= n < Pow2(k) && k > 0
    ensures n / base < Pow2(k - 1) && k > 1
  {
    DivisionSplits(n, base);
    Doubles(n / base, base);
  }

  lemma Doubles(q: nat, base: nat)
    requires base >= 2
    ensures q * 2 <= q * base
  {
  }

  lemma WordDigits(n: Word, base: nat, large: bool)
    requires 2 <= base <= 36
    ensures |Numeral(n, base, large)| <= 32
  {
    WordSize();
    DigitCount(n, base, large, 32);
  }

  /** The digits of lines 93-97, which leave nothing for zero. */
  function DigitsLeft(n: nat, base: nat, large: bool): string
    requires 2 <= base <= 36
  {
    if n == 0 then "" else Numeral(n, base, large)
  }

  lemma SmallDivision(n: nat, base: nat)
    requires base >= 2
    ensures n < base ==> n / base == 0 && n % base == n
    ensures n >= base ==> n / base > 0
    ensures n > 0 ==> n / base < n
  {
    var q, r := n / base, n % base;
    DivisionSplits(n, base);
    SmallProduct(q, r, n, base);
  }

  lemma SmallProduct(q: nat, r: nat, n: nat, base: nat)
    requires base >= 2 && q * base + r == n && r < base
    ensures n < base ==> q == 0 && r == n
    ensures n >= base ==> q > 0
    ensures n > 0 ==> q < n
  {
    Doubles(q, base);
    if q > 0 {
      assert q * base >= base by {
        Grows(q, base);
      }
    }
  }

  lemma Grows(q: nat, base: nat)
    requires q > 0
    ensures q * base >= base
  {
    assert (q - 1) * base >= 0;
  }

  lemma DigitsUnfold(n: nat, base: nat, large: bool)
    requires 2 <= base <= 36 && n > 0
    ensures DigitsLeft(n, base, large) == DigitsLeft(n / base, base, large) + [DigitChar(n % base, large)]
  {
    hide DigitChar;
    SmallDivision(n, base);
  }

  lemma NoDigitsLeft(n: nat, base: nat, large: bool)
    requires 2 <= base <= 36
    ensures DigitsLeft(0, base, large) == "" && (n > 0 ==> DigitsLeft(n, base, large) == Numeral(n, base, large))
  {
  }

  lemma ZeroNumeral(base: nat, large: bool)
    requires 2 <= base <= 36
    ensures Numeral(0, base, large) == "0"
  {
  }

  /** Lines 88-97: the digits, last one first. */
  method ComputeDigits(num: Word, base: nat, large: bool) returns (tmp: array<char>, i: nat)
    requires 2 <= base <= 36
    ensures fresh(tmp) && i <= tmp.Length && Reversed(tmp[..i]) == Numeral(num, base, large)
  {
    hide Numeral, DigitChar, Reversed;
    tmp := new char[66];
    i := 0;
    ReversedStep("", '0');
    if num == 0 {
      tmp[0] := '0';
      i := 1;
      assert tmp[..1] == "" + ['0'];
      ZeroNumeral(base, large);
    } else {
      i := ComputeNonzeroDigits(num, base, large, tmp);
    }
  }

  method ComputeNonzeroDigits(num: Word, base: nat, large: bool, tmp: array<char>) returns (i: nat)
    requires 2 <= base <= 36 && num > 0 && tmp.Length == 66
    modifies tmp
    ensures i <= tmp.Length && Reversed(tmp[..i]) == Numeral(num, base, large)
  {
    hide Numeral, DigitChar, Reversed, DigitsLeft;
    WordDigits(num, base, large);
    i := 0;
    var n: nat := num;
    assert tmp[..0] == "";
    ReversedNothing();
    NoDigitsLeft(num, base, large);
    while n != 0
      invariant i <= 32 && |Reversed(tmp[..i])| == i
      invariant Numeral(num, base, large) == DigitsLeft(n, base, large) + Reversed(tmp[..i])
    {
      ghost var done := tmp[..i];
      var rem: nat;
      n, rem := NextDigit(n, base, large);
      tmp[i] := DigitChar(rem, large);
      assert tmp[..i + 1] == done + [tmp[i]];
      ReversedStep(done, tmp[i]);
      Associative(DigitsLeft(n, base, large), [tmp[i]], Reversed(done));
      i := i + 1;
    }
  }

  /** Lines 94-95. */
  method NextDigit(n: nat, base: nat, large: bool) returns (num: nat, rem: nat)
    requires 2 <= base <= 36 && n > 0
    ensures num < n && rem < base
    ensures DigitsLeft(n, base, large) == DigitsLeft(num, base, large) + [DigitChar(rem, large)]
  {
    hide Numeral, DigitChar, DigitsLeft;
    DigitsUnfold(n, base, large);
    SmallDivision(n, base);
    rem := n % base;
    num := n / base;
  }

  lemma ReversedNothing()
    ensures Reversed("") == ""
  {
  }

  lemma ReversedStep(s: string, c: char)
    ensures Reversed(s + [c]) == [c] + Reversed(s)
  {
    assert (s + [c])[..|s|] == s;
  }

  /** Lines 140-144. */
  method PutDigits(buf: array<char>, limit: nat, str: nat, tmp: array<char>, count: nat) returns (str': nat)
    requires limit <= buf.Length && buf != tmp && count <= tmp.Length
    modifies buf
    ensures str' == str + count && buf[..] == Stored(old(buf[..]), limit, str, Reversed(tmp[..count]))
  {
    str' := str;
    var i := count;
    while i > 0
      invariant 0 <= i <= count && str' + i == str + count
      invariant Stored(buf[..], limit, str', Reversed(tmp[..i])) == Stored(old(buf[..]), limit, str,
                Reversed(tmp[..count]))
    {
      i := i - 1;
      assert tmp[..i + 1][..i] == tmp[..i];
      StoredConcat(buf[..], limit, str', [tmp[i]], Reversed(tmp[..i]));
      str' := Put(buf, limit, str', tmp[i]);
    }
  }

  /** Storing `text` after what is stored already. */
  lemma Append(mem: seq<char>, limit: nat, start: nat, done: string, text: string, pos: nat, now: seq<char>)
    requires limit <= |mem| && pos == start + |done| && now == Stored(mem, limit, start, done)
    ensures Stored(now, limit, pos, text) == Stored(mem, limit, start, done + text)
  {
    StoredConcat(mem, limit, start, done, text);
  }

  /** Lines 109-113. */
  method PutSign(buf: array<char>, limit: nat, str: nat, sign: char) returns (str': nat)
    requires limit <= buf.Length
    modifies buf
    ensures var text := if sign == '\0' then "" else [sign];
            str' == str + |text| && buf[..] == Stored(old(buf[..]), limit, str, text)
  {
    str' := str;
    if sign != '\0' {
      str' := Put(buf, limit, str', sign);
    }
  }

  /** Lines 114-127. */
  method PutPrefix(buf: array<char>, limit: nat, str: nat, base: nat, flags: Flags) returns (str': nat)
    requires limit <= buf.Length
    modifies buf
    ensures str' == str + |PrefixText(base, flags)|
            && buf[..] == Stored(old(buf[..]), limit, str, PrefixText(base, flags))
  {
    hide DigitChar;
    str' := str;
    if flags.special {
      if base == 8 {
        str' := Put(buf, limit, str', '0');
      } else if base == 16 {
        StoredConcat(buf[..], limit, str, "0", [DigitChar(33, flags.large)]);
        str' := Put(buf, limit, str', '0');
        str' := Put(buf, limit, str', DigitChar(33, flags.large));
      }
    }
  }

  /** Lines 102-127, when `room` characters of the width are left. */
  function Front(sign: string, prefix: string, room: int, side: Side): string {
    (if side == Before then Repeat(' ', room) else "") + sign + prefix
  }

  /** Lines 128-149. */
  function Back(digits: string, zeros: int, room: int, side: Side): string {
    (if side == Inside then Repeat('0', room) else "") + Repeat('0', zeros)
    + digits + (if side == After then Repeat(' ', room) else "")
  }

  lemma RepeatConcat(c: char, a: int, b: int)
    ensures Repeat(c, a) + Repeat(c, b) == Repeat(c, Positive(a) + Positive(b))
  {
  }

  lemma PiecesAreNumberText(num: Word, base: nat, width: int, precision: int, flags: Flags)
    requires 2 <= base <= 36
    ensures var digits := DigitsText(num, base, flags);
            var room := width - Needed(num, base, precision, flags);
            NumberText(num, base, width, precision, flags) ==
            Front(SignText(num, flags), PrefixText(base, flags), room, PadSide(flags))
            + Back(digits, Larger(precision, |digits|) - |digits|, room, PadSide(flags))
  {
    hide SignText, PrefixText, DigitsText, Needed;
    var digits := DigitsText(num, base, flags);
    var room := width - Needed(num, base, precision, flags);
    var side := PadSide(flags);
    NoneRepeated('0', 0);
    NoneRepeated(' ', 0);
    NoneRepeated(' ', room);
    NoneRepeated('0', room);
    hide Repeat;
    var zeros := Larger(precision, |digits|) - |digits|;
    RepeatConcat('0', if side == Inside then room else 0, zeros);
    RepeatPositive(' ', room);
    Regroup(if side == Before then Repeat(' ', room) else "", SignText(num, flags), PrefixText(base, flags),
            if side == Inside then Repeat('0', room) else "", Repeat('0', zeros),
            digits, if side == After then Repeat(' ', room) else "");
  }

  lemma RepeatPositive(c: char, count: int)
    ensures Repeat(c, Positive(count)) == Repeat(c, count)
  {
  }

  lemma Regroup(a: string, b: string, c: string, d: string, e: string, f: string, g: string)
    ensures (a + b + c) + (d + e + f + g) == a + b + c + (d + e) + f + g
  {
    assert d + e + f + g == (d + e) + (f + g);
  }

  method PutFront(buf: array<char>, limit: nat, str: nat, sign: char, base: nat, flags: Flags, space: int)
    returns (str': nat, room: int)
    requires limit <= buf.Length
    modifies buf
    ensures var text := Front(if sign == '\0' then "" else [sign], PrefixText(base, flags), space, PadSide(flags));
            str' == str + |text| && buf[..] == Stored(old(buf[..]), limit, str, text)
    ensures if PadSide(flags) == Before then room < 0 else room == space
  {
    hide Stored, Repeat, PrefixText;
    ghost var mem := buf[..];
    str', room := str, space;
    ghost var done := "";
    StoredNothing(mem, limit, str);
    if !flags.zeropad && !flags.left {
      done := Repeat(' ', room);
      str', room := Fill(buf, limit, str', ' ', room);
    }
    ghost var text := if sign == '\0' then "" else [sign];
    Append(mem, limit, str, done, text, str', buf[..]);
    str' := PutSign(buf, limit, str', sign);
    Append(mem, limit, str, done + text, PrefixText(base, flags), str', buf[..]);
    str' := PutPrefix(buf, limit, str', base, flags);
  }

  /** What the loops store when `room` characters are left: after blanks in front there is no room. */
  lemma BackPieces(digits: string, zeros: int, room: int, flags: Flags)
    requires PadSide(flags) == Before ==> room < 0
    ensures Back(digits, zeros, room, PadSide(flags)) ==
            (if flags.left then "" else Repeat(if flags.zeropad then '0' else ' ', room))
            + Repeat('0', zeros) + digits
            + Repeat(' ', if flags.left then room else -1)
  {
  }

  method PutBack(buf: array<char>, limit: nat, str: nat, flags: Flags, tmp: array<char>, i: nat, precision: nat,
                 space: int)
    returns (str': nat)
    requires limit <= buf.Length && buf != tmp && i <= tmp.Length
    requires PadSide(flags) == Before ==> space < 0
    modifies buf
    ensures var text := Back(Reversed(tmp[..i]), precision - i, space, PadSide(flags));
            str' == str + |text| && buf[..] == Stored(old(buf[..]), limit, str, text)
  {
    hide Stored, Repeat, Reversed, Back;
    ghost var mem := buf[..];
    var room := space;
    str' := str;
    ghost var done := "";
    StoredNothing(mem, limit, str);
    if !flags.left {
      var c := if flags.zeropad then '0' else ' ';
      done := Repeat(c, room);
      str', room := Fill(buf, limit, str', c, room);
    }
    ghost var zeros, digits, after := Repeat('0', precision - i), Reversed(tmp[..i]), Repeat(' ', room);
    Append(mem, limit, str, done, zeros, str', buf[..]);
    var count := precision - i;
    str', count := Fill(buf, limit, str', '0', count);
    Append(mem, limit, str, done + zeros, digits, str', buf[..]);
    str' := PutDigits(buf, limit, str', tmp, i);
    Append(mem, limit, str, done + zeros + digits, after, str', buf[..]);
    str', room := Fill(buf, limit, str', ' ', room);
    BackPieces(digits, precision - i, space, flags);
  }

  /** Lines 102-150. */
  method PutPieces(buf: array<char>, limit: nat, str: nat, sign: char, base: nat, flags: Flags, tmp: array<char>,
                   i: nat,
                   precision: nat, space: int)
    returns (str': nat)
    requires limit <= buf.Length && buf != tmp && i <= tmp.Length
    modifies buf
    ensures var text := Front(if sign == '\0' then "" else [sign], PrefixText(base, flags), space, PadSide(flags))
                        + Back(Reversed(tmp[..i]), precision - i, space, PadSide(flags));
            str' == str + |text| && buf[..] == Stored(old(buf[..]), limit, str, text)
  {
    hide Stored, Front, Repeat, Reversed, PrefixText;
    ghost var mem := buf[..];
    var room: int;
    str', room := PutFront(buf, limit, str, sign, base, flags, space);
    ghost var front := Front(if sign == '\0' then "" else [sign], PrefixText(base, flags), space, PadSide(flags));
    ghost var back := Back(Reversed(tmp[..i]), precision - i, room, PadSide(flags));
    Append(mem, limit, str, front, back, str', buf[..]);
    str' := PutBack(buf, limit, str', flags, tmp, i, precision, room);
    assert back == Back(Reversed(tmp[..i]), precision - i, space, PadSide(flags));
  }

  /** `number`; a base outside 2..36 prints nothing and gives a null pointer. */
  method Number(buf: array<char>, limit: nat, str: nat, num: Word, base: nat, width: int, precision: int, flags: Flags)
    returns (ok: bool, str': nat)
    requires limit <= buf.Length
    modifies buf
    ensures ok <==> 2 <= base <= 36
    ensures !ok ==> buf[..] == old(buf[..])
    ensures ok ==> var text := NumberText(num, base, width, precision, flags);
                   str' == str + |text| && buf[..] == Stored(old(buf[..]), limit, str, text)
  {
    hide Front, Back, NumberText, Numeral, Stored, Reversed;
    if base < 2 || base > 36 {
      return false, str;
    }
    ok := true;
    var sign := '\0';
    var n: Word := num;
    var room := width;
    if flags.sign {
      if num >= HALF {
        sign := '-';
        n := WORD - num;
        room := room - 1;
      } else if flags.plus {
        sign := '+';
        room := room - 1;
      } else if flags.space {
        sign := ' ';
        room := room - 1;
      }
    }
    if flags.special {
      if base == 16 {
        room := room - 2;
      } else if base == 8 {
        room := room - 1;
      }
    }
    var tmp, i := ComputeDigits(n, base, flags.large);
    var digits: nat := if precision < i then i else precision;
    room := room - digits;
    PiecesAreNumberText(num, base, width, precision, flags);
    str' := PutPieces(buf, limit, str, sign, base, flags, tmp, i, digits, room);
  }

  lemma NoneRepeated(c: char, count: int)
    ensures count <= 0 ==> Repeat(c, count) == ""
  {
  }
}
