/**
 `vsnprintf` of libcpp/cstring.cpp: a walk along the format string that stores what fits of the text that
 module Formatting defines.
 */
module Vsnprintfs {
  import opened Bitmaps
  import opened Numerals
  import opened Formatting
  import opened Printing

  // ----- the format string

  lemma AtSuffix(s: string, i: nat, k: nat)
    requires i <= |s|
    ensures At(s[i..], k) == At(s, i + k)
  {
  }

  /** Lines 199-218. */
  method SkipFlags(fmt: string, start: nat, ghost arg: nat) returns (flags: Flags, i: nat)
    requires start <= |fmt|
    ensures start <= i <= |fmt|
    ensures ReadFlags(Reading(NOTHING, fmt[start..], arg)) == Reading(NOTHING.(flags := flags), fmt[i..], arg)
  {
    flags, i := NO_FLAGS, start;
    while IsFlag(At(fmt, i))
      invariant start <= i <= |fmt|
      invariant ReadFlags(Reading(NOTHING.(flags := flags), fmt[i..], arg))
             == ReadFlags(Reading(NOTHING, fmt[start..], arg))
      decreases |fmt| - i
    {
      flags := WithFlag(flags, fmt[i]);
      assert fmt[i..][1..] == fmt[i + 1..];
      i := i + 1;
    }
  }

  lemma DigitsOfTen(c: char)
    ensures IsDigit(c) <==> Accepted(c, 10)
    ensures IsDigit(c) ==> c != '\0' && DigitValue(c) == (c - '0') as nat
  {
  }

  /** Scan is the only place to stop. */
  lemma ScanStops(s: string, end: nat, base: nat)
    requires end <= |s| && AllAccepted(s[..end], base) && !Accepted(At(s, end), base)
    ensures Scan(s, 0, base) == end
  {
    hide Accepted;
    forall k | 0 <= k < end
      ensures Accepted(s[k], base)
    {
      assert s[..end][k] == s[k];
    }
  }

  /** `skip_atoi` */
  method SkipAtoi(fmt: string, start: nat) returns (n: nat, i: nat)
    requires start <= |fmt|
    ensures i == start + Scan(fmt[start..], 0, 10) && i <= |fmt|
    ensures AllAccepted(fmt[start..][..i - start], 10) && n == ValueOf(fmt[start..][..i - start], 10)
  {
    hide Accepted, ValueOf, DigitValue, IsDigit;
    n, i := 0, start;
    NoDigits(10);
    assert fmt[start..][..0] == "";
    DigitsOfTen(At(fmt, i));
    while IsDigit(At(fmt, i))
      invariant start <= i <= |fmt|
      invariant AllAccepted(fmt[start..][..i - start], 10) && n == ValueOf(fmt[start..][..i - start], 10)
      invariant IsDigit(At(fmt, i)) <==> Accepted(At(fmt, i), 10)
      decreases |fmt| - i
    {
      DigitsOfTen(At(fmt, i));
      ValueOfAppend(fmt[start..][..i - start], fmt[i], 10);
      assert fmt[start..][..i + 1 - start] == fmt[start..][..i - start] + [fmt[i]];
      n := n * 10 + DigitValue(fmt[i]);
      i := i + 1;
      DigitsOfTen(At(fmt, i));
    }
    AtSuffix(fmt, start, i - start);
    ScanStops(fmt[start..], i - start, 10);
  }

  /** Lines 221-232. */
  method FieldWidth(fmt: string, start: nat, spec: Spec, args: Args, arg: nat) returns (spec': Spec, i: nat, arg': nat)
    requires start <= |fmt| && spec.width == -1
    ensures start <= i <= |fmt|
    ensures ReadWidth(Reading(spec, fmt[start..], arg), args) == Reading(spec', fmt[i..], arg')
    ensures spec'.precision == spec.precision
  {
    hide Scan, ValueOf, AllAccepted;
    spec', i, arg' := spec, start, arg;
    AtSuffix(fmt, start, 0);
    if IsDigit(At(fmt, i)) {
      var n;
      n, i := SkipAtoi(fmt, i);
      spec' := spec.(width := n);
    } else if At(fmt, i) == '*' {
      i := i + 1;
      var w := Signed(args(arg).word);
      arg' := arg + 1;
      spec' := spec.(width := w);
      if w < 0 {
        spec' := spec.(width := -w, flags := spec.flags.(left := true));
      }
    }
  }

  /** Lines 234-246. */
  method Precision(fmt: string, start: nat, spec: Spec, args: Args, arg: nat) returns (spec': Spec, i: nat, arg': nat)
    requires start <= |fmt| && spec.precision == -1
    ensures start <= i <= |fmt|
    ensures ReadPrecision(Reading(spec, fmt[start..], arg), args) == Reading(spec', fmt[i..], arg')
  {
    hide Scan, ValueOf, AllAccepted;
    i, arg' := start, arg;
    var precision := -1;
    AtSuffix(fmt, start, 0);
    if At(fmt, i) == '.' {
      i := i + 1;
      AtSuffix(fmt, i, 0);
      assert fmt[start..][1..] == fmt[i..];
      if IsDigit(At(fmt, i)) {
        precision, i := SkipAtoi(fmt, i);
      } else if At(fmt, i) == '*' {
        i := i + 1;
        precision := Signed(args(arg).word);
        arg' := arg + 1;
      }
      if precision < 0 {
        precision := 0;
      }
    }
    spec' := spec.(precision := precision);
  }

  /** Lines 249-258. */
  method Qualifier(fmt: string, start: nat, spec: Spec, ghost arg: nat) returns (spec': Spec, i: nat)
    requires start <= |fmt|
    ensures start <= i <= |fmt|
    ensures ReadQualifier(Reading(spec, fmt[start..], arg)) == Reading(spec', fmt[i..], arg)
  {
    spec', i := spec, start;
    AtSuffix(fmt, start, 0);
    AtSuffix(fmt, start, 1);
    var c := At(fmt, i);
    if c == 'h' || c == 'l' || c == 'L' || c == 'Z' || c == 'z' {
      var qualifier := c;
      i := i + 1;
      if qualifier == 'l' && At(fmt, i) == 'l' {
        qualifier := 'L';
        i := i + 1;
      }
      spec' := spec.(qualifier := qualifier);
    }
  }

  /** Lines 198-258. */
  method Specification(fmt: string, start: nat, args: Args, arg: nat) returns (spec: Spec, i: nat, arg': nat)
    requires start <= |fmt|
    ensures start <= i <= |fmt|
    ensures ReadSpec(fmt[start..], args, arg) == Reading(spec, fmt[i..], arg')
  {
    hide ReadFlags, ReadWidth, ReadPrecision, ReadQualifier;
    var flags;
    flags, i := SkipFlags(fmt, start, arg);
    spec, i, arg' := FieldWidth(fmt, i, NOTHING.(flags := flags), args, arg);
    spec, i, arg' := Precision(fmt, i, spec, args, arg');
    spec, i := Qualifier(fmt, i, spec, arg');
  }

  // ----- conversions

  /** Lines 297-302. */
  method PutText(buf: array<char>, limit: nat, str: nat, s: string) returns (str': nat)
    requires limit <= buf.Length
    modifies buf
    ensures str' == str + |s| && buf[..] == Stored(old(buf[..]), limit, str, s)
  {
    str' := str;
    var i := 0;
    while i < |s|
      invariant 0 <= i <= |s| && str' == str + i
      invariant Stored(buf[..], limit, str', s[i..]) == Stored(old(buf[..]), limit, str, s)
    {
      assert s[i..] == [s[i]] + s[i + 1..];
      StoredConcat(buf[..], limit, str', [s[i]], s[i + 1..]);
      str' := Put(buf, limit, str', s[i]);
      i := i + 1;
    }
  }

  /** Padding, text, padding: lines 265-280 and 290-307. */
  method PutField(buf: array<char>, limit: nat, str: nat, s: string, width: int, left: bool) returns (str': nat)
    requires limit <= buf.Length
    modifies buf
    ensures str' == str + |Field(s, width, left)| && buf[..] == Stored(old(buf[..]), limit, str, Field(s, width, left))
  {
    hide Stored, Repeat;
    ghost var mem := buf[..];
    ghost var done := "";
    str' := str;
    var count := width - |s|;
    StoredNothing(mem, limit, str);
    if !left {
      done := Repeat(' ', count);
      str', count := Fill(buf, limit, str', ' ', count);
    }
    Append(mem, limit, str, done, s, str', buf[..]);
    str' := PutText(buf, limit, str', s);
    Append(mem, limit, str, done + s, Repeat(' ', count), str', buf[..]);
    NoneRepeated(' ', count);
    assert Field(s, width, left) == done + s + Repeat(' ', count);
    str', count := Fill(buf, limit, str', ' ', count);
  }

  /** Lines 283-308. */
  method PutString(buf: array<char>, limit: nat, str: nat, spec: Spec, a: Arg) returns (str': nat)
    requires limit <= buf.Length
    modifies buf
    ensures str' == str + |StringText(a, spec)| && buf[..] == Stored(old(buf[..]), limit, str, StringText(a, spec))
  {
    hide Stored, Field, StrNLen;
    var s := if a.word < 4096 then "<NULL>" else a.text;
    var len := MeasureString(s, spec.precision);
    str' := PutField(buf, limit, str, s[..len], spec.width, spec.flags.left);
  }

  /** `strnlen` of lines 685-690; a negative precision arrives as a huge count. */
  method MeasureString(s: string, count: int) returns (n: nat)
    ensures n == StrNLen(s, count)
  {
    n := 0;
    var left := count;
    while left != 0 && At(s, n) != '\0'
      invariant n <= |s| && left == count - n
      invariant n + StrNLen(s[n..], left) == StrNLen(s, count)
      decreases |s| - n
    {
      assert s[n..][1..] == s[n + 1..];
      left := left - 1;
      n := n + 1;
    }
  }

  predicate IsInteger(c: char) {
    c == 'o' || c == 'X' || c == 'x' || c == 'd' || c == 'i' || c == 'u'
  }

  /** Lines 339-353 and 368-381. */
  method PutInteger(buf: array<char>, limit: nat, str: nat, c: char, spec: Spec, a: Arg) returns (str': nat)
    requires limit <= buf.Length && IsInteger(c)
    modifies buf
    ensures str' == str + |Converted(c, spec, a)| && buf[..] == Stored(old(buf[..]), limit, str, Converted(c, spec, a))
  {
    hide Stored, NumberText;
    var base := 10;
    var flags := spec.flags;
    if c == 'o' {
      base := 8;
    } else if c == 'X' {
      flags := flags.(large := true);
      base := 16;
    } else if c == 'x' {
      base := 16;
    } else if c == 'd' || c == 'i' {
      flags := flags.(sign := true);
    }
    var num: Word := a.word;
    if spec.qualifier == 'h' {
      num := a.word % 0x10000;
      if flags.sign && num >= 0x8000 {
        num := num + 0xFFFF_0000;
      }
    }
    var _, end := Number(buf, limit, str, num, base, spec.width, spec.precision, flags);
    str' := end;
  }

  /** Lines 310-318. */
  method PutPointer(buf: array<char>, limit: nat, str: nat, spec: Spec, w: Word) returns (str': nat)
    requires limit <= buf.Length
    modifies buf
    ensures str' == str + |PointerText(w, spec)| && buf[..] == Stored(old(buf[..]), limit, str, PointerText(w, spec))
  {
    hide Stored, NumberText;
    var width, flags := spec.width, spec.flags;
    if width == -1 {
      width := 8;
      flags := flags.(zeropad := true);
    }
    var _, end := Number(buf, limit, str, w, 16, width, spec.precision, flags);
    str' := end;
  }

  /** Lines 263-381; `stores` is what `%n` stores through its argument. */
  method Convert(buf: array<char>, limit: nat, str: nat, c: char, spec: Spec, args: Args, arg: nat)
    returns (str': nat, arg': nat, stores: seq<Store>)
    requires limit <= buf.Length
    modifies buf
    ensures arg' == NextArg(c, arg) && stores == StoreOf(c, args(arg), str)
    ensures var text := Converted(c, spec, args(arg));
            str' == str + |text| && buf[..] == Stored(old(buf[..]), limit, str, text)
  {
    hide Stored, NumberText, StringText, PointerText, Field;
    str', arg', stores := str, arg, [];
    if c == 'c' {
      arg' := arg + 1;
      str' := PutField(buf, limit, str, [(args(arg).word % 256) as char], spec.width, spec.flags.left);
    } else if c == 's' {
      arg' := arg + 1;
      str' := PutString(buf, limit, str, spec, args(arg));
    } else if c == 'p' {
      arg' := arg + 1;
      str' := PutPointer(buf, limit, str, spec, args(arg).word);
    } else if c == 'n' {
      arg' := arg + 1;
      stores := [Store(args(arg).word, str)];
      StoredNothing(buf[..], limit, str);
    } else if c == '%' {
      str' := Put(buf, limit, str, '%');
    } else if IsInteger(c) {
      arg' := arg + 1;
      str' := PutInteger(buf, limit, str, c, spec, args(arg));
    } else {
      str' := Put(buf, limit, str, '%');
      if c != '\0' {
        StoredConcat(old(buf[..]), limit, str, "%", [c]);
        assert "%" + [c] == ['%', c];
        str' := Put(buf, limit, str', c);
      }
    }
  }

  /** Of `size` characters at `address`, those in front of the end of the address space. */
  function Room(address: nat, size: nat): nat
    requires address <= WORD
  {
    if address + size <= WORD then size else WORD - address
  }

  /** Lines 182-188: how many characters may be written; `end` is the address of the last one. */
  method LastAddress(address: nat, size: nat) returns (end: nat, room: nat)
    requires 0 < address < WORD && size < WORD
    ensures room == Room(address, size) && end == address + room - 1 < WORD
  {
    end, room := (address + size - 1) % WORD, size;
    if end < address - 1 {
      end := WORD - 1;
      room := end - address + 1;
    }
  }

  /**
   `vsnprintf`, for a buffer at `address`: the buffer gets what fits of the whole text, and a NUL; the result is the
   length of the whole text, whatever the size; nothing else is written but `stores`.
   */
  method Vsnprintf(buf: array<char>, address: nat, size: nat, fmt: string, args: Args)
    returns (length: nat, stores: seq<Store>)
    requires 0 < address < WORD && size < WORD && Room(address, size) <= buf.Length
    modifies buf
    ensures length == |Format(fmt, args, 0)| && stores == Stores(fmt, args, 0, 0)
    ensures buf[..] == Bounded(old(buf[..]), Room(address, size), Format(fmt, args, 0))
    ensures Room(address, size) > 0 ==>
              var n := if length < Room(address, size) then length else Room(address, size) - 1;
              && buf[..n] == Format(fmt, args, 0)[..n] && buf[n] == '\0' && buf[n + 1..] == old(buf[n + 1..])
    ensures size == 0 ==> buf[..] == old(buf[..])
  {
    hide Format, Stores;
    var end, room := LastAddress(address, size);
    length, stores := WriteFormat(buf, room, fmt, args);
  }

  /** Lines 190-392: the loop and the NUL, where `size` characters may be written. */
  method WriteFormat(buf: array<char>, size: nat, fmt: string, args: Args) returns (length: nat, stores: seq<Store>)
    requires size <= buf.Length
    modifies buf
    ensures length == |Format(fmt, args, 0)| && stores == Stores(fmt, args, 0, 0)
    ensures buf[..] == Bounded(old(buf[..]), size, Format(fmt, args, 0))
  {
    hide Stored, ReadSpec, Converted, NextArg, Bounded, StoreOf;
    stores := [];
    ghost var mem := buf[..];
    ghost var done := "";
    var str: nat, i: nat, arg: nat := 0, 0, 0;
    StoredNothing(mem, size, 0);
    assert fmt[0..] == fmt;
    while At(fmt, i) != '\0'
      invariant i <= |fmt| && str == |done| && buf[..] == Stored(mem, size, 0, done)
      invariant Format(fmt, args, 0) == done + Format(fmt[i..], args, arg)
      invariant Stores(fmt, args, 0, 0) == stores + Stores(fmt[i..], args, arg, str)
      decreases |fmt| - i
    {
      AtSuffix(fmt, i, 0);
      if fmt[i] != '%' {
        Append(mem, size, 0, done, [fmt[i]], str, buf[..]);
        Associative(done, [fmt[i]], Format(fmt[i + 1..], args, arg));
        assert fmt[i..][1..] == fmt[i + 1..];
        done := done + [fmt[i]];
        str := Put(buf, size, str, fmt[i]);
        i := i + 1;
      } else {
        ghost var text;
        var more;
        str, i, arg, more, text := Directive(buf, size, str, fmt, i, args, arg);
        stores := stores + more;
        Append(mem, size, 0, done, text, |done|, Stored(mem, size, 0, done));
        Associative(done, text, Format(fmt[i..], args, arg));
        done := done + text;
      }
    }
    AtSuffix(fmt, i, 0);
    assert Format(fmt, args, 0) == done;
    TerminatorBounds(mem, size, done);
    if str < size {
      buf[str] := '\0';
    } else if size > 0 {
      buf[size - 1] := '\0';
    }
    length := str;
  }

  /**
   `vsprintf`, where `buf` is all memory from `address` on: the size that it passes is cut to what is left of the
   address space.  So the text and its NUL are written, however long, and nothing behind them.
   */
  method Vsprintf(buf: array<char>, address: nat, fmt: string, args: Args) returns (length: nat, stores: seq<Store>)
    requires 0 < address < WORD && buf.Length == WORD - address
    modifies buf
    ensures length == |Format(fmt, args, 0)| && stores == Stores(fmt, args, 0, 0)
    ensures length < buf.Length ==> buf[..] == Format(fmt, args, 0) + ['\0'] + old(buf[length + 1..])
  {
    hide Format;
    length, stores := Vsnprintf(buf, address, 0xFFFF_FFFF, fmt, args);
  }

  /** One '%' and what belongs to it. */
  method Directive(buf: array<char>, limit: nat, str: nat, fmt: string, start: nat, args: Args, arg: nat)
    returns (str': nat, i: nat, arg': nat, stores: seq<Store>, ghost text: string)
    requires limit <= buf.Length && start < |fmt| && fmt[start] == '%'
    modifies buf
    ensures start < i <= |fmt|
    ensures Format(fmt[start..], args, arg) == text + Format(fmt[i..], args, arg')
    ensures Stores(fmt[start..], args, arg, str) == stores + Stores(fmt[i..], args, arg', str')
    ensures str' == str + |text| && buf[..] == Stored(old(buf[..]), limit, str, text)
  {
    hide Stored, ReadSpec, Converted, NextArg, StoreOf, Format, Stores;
    var spec;
    spec, i, arg' := Specification(fmt, start + 1, args, arg);
    AtSuffix(fmt, i, 0);
    var c := At(fmt, i);
    text := Converted(c, spec, args(arg'));
    DirectiveText(fmt, start, args, arg, str, spec, i, arg');
    str', arg', stores := Convert(buf, limit, str, c, spec, args, arg');
    if c == '\0' {
      i := i - 1;
    }
    i := i + 1;
  }

  /** What the definitions say of a '%' whose specification ends in front of place `i`. */
  lemma DirectiveText(fmt: string, start: nat, args: Args, arg: nat, str: nat, spec: Spec, i: nat, arg': nat)
    requires start < i <= |fmt| && fmt[start] == '%'
    requires ReadSpec(fmt[start + 1..], args, arg) == Reading(spec, fmt[i..], arg')
    ensures var c := At(fmt, i);
            var text, next, rest := Converted(c, spec, args(arg')), NextArg(c, arg'), if c == '\0' then i else i + 1;
            && rest <= |fmt|
            && Format(fmt[start..], args, arg) == text + Format(fmt[rest..], args, next)
            && Stores(fmt[start..], args, arg, str) ==
               StoreOf(c, args(arg'), str) + Stores(fmt[rest..], args, next, str + |text|)
  {
    hide ReadSpec, Converted, NextArg, StoreOf;
    assert fmt[start..][1..] == fmt[start + 1..];
    AtSuffix(fmt, i, 0);
    AtSuffix(fmt, start, 0);
    assert AfterConversion(fmt[i..]) == if At(fmt, i) == '\0' then fmt[i..] else fmt[i + 1..];
  }
}
