/** stdio.c: the conversion routines over their character buffers, vprintf and sprintf. */
module Stdio {
  import opened Arithmetic
  import opened Numerals
  import opened Format

  const UNSIGNED_LONG_LONGS: nat := 0x1_0000_0000_0000_0000

  /** Digits collected least significant first, read the other way round. */
  function Reversed(s: string): (r: string)
    ensures |r| == |s|
  {
    if s == "" then "" else [s[|s| - 1]] + Reversed(s[..|s| - 1])
  }

  /** The digits of num: those of what is left of it, then the collected ones. */
  ghost predicate DecimalSplit(num: nat, rest: nat, collected: string) {
    Digits(num, 10, false) == Digits(rest, 10, false) + Reversed(collected)
  }

  /** Moving one digit from the number to the collected digits. */
  lemma DecimalDigitMoved(num: nat, rest: nat, collected: string)
    requires rest > 0 && DecimalSplit(num, rest, collected)
    ensures DecimalSplit(num, rest / 10, collected + [DigitChar(rest % 10, false)])
  {
  }

  /** While digits are left, fewer than twenty have been collected. */
  lemma RoomForDigit(num: nat, rest: nat, collected: string)
    requires num < UNSIGNED_LONG_LONGS && DecimalSplit(num, rest, collected)
    ensures |collected| <= 20 && (rest > 0 ==> |collected| < 20)
  {
    DecimalLength(num);
  }

  /** The same for a fixed number of hexadecimal digits. */
  ghost predicate HexSplit(num: nat, count: nat, rest: nat, collected: string, upper: bool) {
    |collected| <= count &&
    FixedHex(num, count, upper) == FixedHex(rest, count - |collected|, upper) + Reversed(collected)
  }

  lemma HexDigitMoved(num: nat, count: nat, rest: nat, collected: string, upper: bool)
    requires HexSplit(num, count, rest, collected, upper) && |collected| < count
    ensures HexSplit(num, count, rest / 16, collected + [DigitChar(rest % 16, upper)], upper)
  {
  }

  /** `0xf & num`, turned into a digit. */
  method HexDigit(t: nat, upper: bool) returns (c: char)
    requires t < 16
    ensures c == DigitChar(t, upper)
  {
    if t < 10 {
      c := (t + '0' as nat) as char;
    } else {
      c := (t - 10 + (if upper then 'A' else 'a') as nat) as char;
    }
  }

  /** `num % 10 + '0'` */
  method DecimalDigit(t: nat) returns (c: char)
    requires t < 10
    ensures c == DigitChar(t, false)
  {
    c := (t + '0' as nat) as char;
  }

  /** Twenty digits are enough for 64 bits. */
  lemma DecimalLength(num: nat)
    requires num < UNSIGNED_LONG_LONGS
    ensures |Digits(num, 10, false)| <= 20
  {
    PowBounds();
    if num != 0 { NumeralLength(num, 10, false, 20); }
  }

  /** The first loop of _utoa and _itoa: digits of num go to temp, lowest first. */
  method CollectDecimal(num: nat, temp: array<char>) returns (j: nat)
    requires num < UNSIGNED_LONG_LONGS && temp.Length == 30
    modifies temp
    ensures j <= 20 && Reversed(temp[..j]) == Digits(num, 10, false)
  {
    var rest: nat := num;
    j := 0;
    while rest != 0
      invariant j <= 20 && DecimalSplit(num, rest, temp[..j])
    {
      RoomForDigit(num, rest, temp[..j]);
      DecimalDigitMoved(num, rest, temp[..j]);
      ghost var collected := temp[..j];
      temp[j] := DecimalDigit(rest % 10);
      assert temp[..j + 1] == collected + [DigitChar(rest % 10, false)];
      j := j + 1;
      rest := rest / 10;
    }
  }

  /** The copy loops: the first j characters of temp go to dst from position `at`, last first. */
  method CopyReversed(temp: array<char>, j: nat, dst: array<char>, at: nat) returns (i: nat)
    requires j <= temp.Length && at + j < dst.Length && temp != dst
    modifies dst
    ensures i == at + j && dst[..i] == old(dst[..at]) + Reversed(temp[..j]) && dst[i] == '\0'
  {
    i := at;
    var k := j;
    assert dst[..i] + Reversed(temp[..k]) == old(dst[..at]) + Reversed(temp[..j]);
    while k > 0
      invariant k <= j && i == at + (j - k)
      invariant dst[..i] + Reversed(temp[..k]) == old(dst[..at]) + Reversed(temp[..j])
    {
      ghost var before := dst[..i];
      k := k - 1;
      assert temp[..k + 1][..k] == temp[..k];
      dst[i] := temp[k];
      assert dst[..i + 1] == before + [temp[k]];
      i := i + 1;
    }
    dst[i] := '\0';
  }

  /** `text` went to position `at`; nothing else changed, except perhaps the character after it. */
  ghost predicate Wrote(m: string, m': string, at: nat, text: string) {
    && |m| == |m'| && at + |text| < |m|
    && m'[..at] == m[..at] && m'[at..at + |text|] == text
    && m'[at + |text| + 1..] == m[at + |text| + 1..]
  }

  lemma WroteMore(m0: string, m1: string, m2: string, at: nat, a: string, b: string)
    requires Wrote(m0, m1, at, a) && Wrote(m1, m2, at + |a|, b)
    ensures Wrote(m0, m2, at, a + b)
  {
    assert m2[..at] == m2[..at + |a|][..at] && m1[..at] == m1[..at + |a|][..at];
    assert m2[at..at + |a|] == m2[..at + |a|][at..] && m1[at..at + |a|] == m1[..at + |a|][at..];
    assert m2[at..at + |a + b|] == m2[at..at + |a|] + m2[at + |a|..at + |a| + |b|];
    assert m1[at + |a| + |b| + 1..] == m1[at + |a| + 1..][|b|..];
    assert m0[at + |a| + |b| + 1..] == m0[at + |a| + 1..][|b|..];
  }

  lemma Terminated(m0: string, m1: string, at: nat, text: string)
    requires Wrote(m0, m1, at, text)
    ensures Wrote(m0, m1[at + |text| := '\0'], at, text)
  {
  }

  class Stdio {
    // the static buffers, one per routine
    const itoaStr: array<char>
    const utoaStr: array<char>
    const itohHex: array<char>
    const ptoaHex: array<char>
    var screen: string // what has gone to putc

    ghost predicate Valid()
      reads this, ptoaHex
    {
      && itoaStr.Length == 30 && utoaStr.Length == 30 && itohHex.Length == 17 && ptoaHex.Length == 11
      && itoaStr != utoaStr && itoaStr != itohHex && itoaStr != ptoaHex
      && utoaStr != itohHex && utoaStr != ptoaHex && itohHex != ptoaHex
      && ptoaHex[..2] == "0x"
    }

    ghost function Buffers(): set<object>
      reads this
    {
      {itoaStr, utoaStr, itohHex, ptoaHex}
    }

    constructor ()
      ensures Valid() && fresh(Buffers()) && screen == ""
    {
      itoaStr := new char[30](_ => '\0');
      utoaStr := new char[30](_ => '\0');
      itohHex := new char[17](_ => '\0');
      ptoaHex := new char[11](i => if i == 0 then '0' else if i == 1 then 'x' else '\0');
      screen := "";
    }

    // -------------------------------------------------------------- conversions

    /** _utoa */
    method Utoa(num: nat) returns (s: string)
      requires Valid() && num < UNSIGNED_LONG_LONGS
      modifies utoaStr
      ensures Valid()
      ensures s == Numeral(num, 10, false) && |s| <= 20
      ensures num != 0 ==> utoaStr[..|s|] == s && utoaStr[|s|] == '\0'
    {
      if num == 0 {
        return "0";
      }
      var temp := new char[30](_ => '\0');
      var j := CollectDecimal(num, temp);
      var i := CopyReversed(temp, j, utoaStr, 0);
      s := utoaStr[..i];
    }

    /** _itoa; the negation of -2^63 is not defined. */
    method Itoa(num: int) returns (s: string)
      requires Valid() && -0x8000_0000_0000_0000 < num < 0x8000_0000_0000_0000
      modifies itoaStr
      ensures Valid()
      ensures s == Signed(num) && |s| <= 21
      ensures num != 0 ==> itoaStr[..|s|] == s && itoaStr[|s|] == '\0'
    {
      if num == 0 {
        return "0";
      }
      var i, rest := 0, num;
      if num < 0 {
        itoaStr[i] := '-';
        i := i + 1;
        rest := -num;
      }
      assert itoaStr[..i] == if num < 0 then "-" else "";
      var temp := new char[30](_ => '\0');
      var j := CollectDecimal(rest, temp);
      i := CopyReversed(temp, j, itoaStr, i);
      s := itoaStr[..i];
    }

    /** _itoh */
    method Itoh(num: nat, uppercase: bool) returns (s: string)
      requires Valid() && num < UNSIGNED_LONG_LONGS
      modifies itohHex
      ensures Valid()
      ensures s == Numeral(num, 16, uppercase) && |s| <= 16
      ensures itohHex[..|s|] == s && itohHex[|s|] == '\0'
    {
      var temp := new char[16](_ => '\0');
      CollectHex(num, 16, uppercase, temp);
      var i := 16;
      PowBounds();
      assert temp[..16] == temp[..];
      while temp[i - 1] == '0' && i > 1
        invariant 1 <= i <= 16 && num < Pow(16, i) && Reversed(temp[..i]) == FixedHex(num, i, uppercase)
      {
        StripZero(num, i, temp[..i], uppercase);
        assert temp[..i][..i - 1] == temp[..i - 1];
        i := i - 1;
        temp[i] := '\0';
      }
      Stripped(num, i, temp[..i], uppercase);
      var j := CopyReversed(temp, i, itohHex, 0);
      s := itohHex[..j];
    }

    /** _ptoa; the buffer starts with "0x" from its initializer on. */
    method Ptoa(num: nat) returns (s: string)
      requires Valid() && num < 0x1_0000_0000
      modifies ptoaHex
      ensures Valid()
      ensures s == Pointer(num) && |s| == 10
      ensures ptoaHex[..10] == s && ptoaHex[10] == '\0'
    {
      var temp := new char[8](_ => '\0');
      CollectHex(num, 8, false, temp);
      assert temp[..8] == temp[..];
      var j := CopyReversed(temp, 8, ptoaHex, 2);
      s := ptoaHex[..j];
      assert s[..2] == "0x";
    }

    // -------------------------------------------------------------- vprintf

    method Putc(c: char)
      modifies this`screen
      ensures screen == old(screen) + [c]
    {
      screen := screen + [c];
    }

    method Puts(str: string) returns (len: nat)
      modifies this`screen
      ensures screen == old(screen) + str && len == |str|
    {
      len := 0;
      while len < |str|
        invariant len <= |str| && screen == old(screen) + str[..len]
      {
        Putc(str[len]);
        len := len + 1;
      }
    }

    /** The 32-bit branches of vprintf's switch. */
    method PrintWord(c: char, w: nat) returns (len: nat)
      requires Valid() && TakesWord(c) && w < 0x1_0000_0000
      modifies this`screen, Buffers()
      ensures Valid() && screen == old(screen) + VWord(c, w) && len == |VWord(c, w)|
    {
      var s;
      match c {
        case 'c' =>
          Putc((w % 0x100) as char);
          return 1;
        case 'd' => s := Itoa(ToInt32(w));
        case 'p' => s := Ptoa(w);
        case 'u' => s := Utoa(w);
        case 'X' => s := Itoh(w, true);
        case _ => s := Itoh(w, false);
      }
      len := Puts(s);
    }

    /** The 64-bit branches. */
    method PrintLong(c: char, q: nat) returns (len: nat)
      requires Valid() && IsNumber(c) && q < UNSIGNED_LONG_LONGS && (c == 'd' ==> q != 0x8000_0000_0000_0000)
      modifies this`screen, Buffers()
      ensures Valid() && screen == old(screen) + VLong(c, q) && len == |VLong(c, q)|
    {
      var s;
      match c {
        case 'd' => s := Itoa(ToInt64(q));
        case 'u' => s := Utoa(q);
        case 'X' => s := Itoh(q, true);
        case _ => s := Itoh(q, false);
      }
      len := Puts(s);
    }

    /** The switch of vprintf: `format` is at a '%'; afterwards it is past the directive. */
    method PrintDirective(format: string, args: seq<Arg>)
      returns (format': string, args': seq<Arg>, len: nat, ghost text: string)
      requires Valid() && format != "" && format[0] == '%' && WellFormed(format, args, false)
      modifies this`screen, Buffers()
      ensures Valid() && WellFormed(format', args', false) && |format'| < |format|
      ensures screen == old(screen) + text && len == |text|
      ensures VOut(format, args) == text + VOut(format', args')
    {
      assert format[1..][1..] == format[2..] && (|format| >= 3 ==> format[2..][1..] == format[3..]);
      assert |format| >= 4 ==> format[3..][1..] == format[4..];
      format', args', len, text := format[1..], args, 0, "";
      match format'[0] {
        case 'c' => len := PrintWord('c', args[0].w); text := VWord('c', args[0].w); args' := args[1..];
        case 'd' => len := PrintWord('d', args[0].w); text := VWord('d', args[0].w); args' := args[1..];
        case 'l' =>
          format' := format'[1..];
          if IsNumber(format'[0]) {
            len := PrintWord(format'[0], args[0].w);
            text := VWord(format'[0], args[0].w);
            args' := args[1..];
          } else {
            format' := format'[1..];
            if IsNumber(format'[0]) {
              len := PrintLong(format'[0], args[0].q);
              text := VLong(format'[0], args[0].q);
              args' := args[1..];
            }
          }
        case 'p' => len := PrintWord('p', args[0].w); text := VWord('p', args[0].w); args' := args[1..];
        case 's' => len := Puts(args[0].s); text := args[0].s; args' := args[1..];
        case 'u' => len := PrintWord('u', args[0].w); text := VWord('u', args[0].w); args' := args[1..];
        case 'X' => len := PrintWord('X', args[0].w); text := VWord('X', args[0].w); args' := args[1..];
        case 'x' => len := PrintWord('x', args[0].w); text := VWord('x', args[0].w); args' := args[1..];
        case '%' => Putc('%'); len := 1; text := "%";
        case _ =>
      }
      format' := format'[1..];
    }

    /** vprintf */
    method Vprintf(format: string, args: seq<Arg>) returns (len: nat)
      requires Valid() && WellFormed(format, args, false)
      modifies this`screen, Buffers()
      ensures Valid() && screen == old(screen) + VOut(format, args) && len == |VOut(format, args)|
      ensures |screen| == |old(screen)| + len && Printed(format, args, screen[|old(screen)|..])
    {
      var rest, left := format, args;
      len := 0;
      while rest != ""
        invariant Valid() && WellFormed(rest, left, false)
        invariant screen + VOut(rest, left) == old(screen) + VOut(format, args) && |screen| == |old(screen)| + len
        decreases |rest|
      {
        ghost var before, text, goal := screen, [rest[0]], VOut(rest, left);
        if rest[0] != '%' {
          Putc(rest[0]);
          len := len + 1;
          rest := rest[1..];
        } else {
          var n;
          rest, left, n, text := PrintDirective(rest, left);
          len := len + n;
        }
        Regroup(before, text, VOut(rest, left));
      }
      assert screen == old(screen) + VOut(format, args);
      assert screen[|old(screen)|..] == VOut(format, args);
      VOutPrinted(format, args);
    }

    // -------------------------------------------------------------- sprintf

    /** The 32-bit branches of sprintf's switch, up to the temporary text. */
    method WordTemp(c: char, w: nat, long: bool) returns (temp: string)
      requires Valid() && TakesWord(c) && c != 'c' && w < 0x1_0000_0000
      modifies Buffers()
      ensures Valid() && temp == SWord(c, w, long) && WellFormed(temp, [], true)
    {
      match c {
        case 'd' => temp := Itoa(ToInt32(w));
        case 'p' => temp := Ptoa(w);
        case 'u' =>
          if long {
            temp := Utoa(w);
          } else {
            temp := Itoa(w);
          }
        case 'X' => temp := Itoh(w, true);
        case _ => temp := Itoh(w, false);
      }
      WordTextPlain(c, w, long);
      PlainIsWellFormed(temp);
    }

    /** The 64-bit branches; %llu is converted to a signed argument of _itoa. */
    method LongTemp(c: char, q: nat) returns (temp: string)
      requires Valid() && IsNumber(c) && q < UNSIGNED_LONG_LONGS
      requires c == 'd' || c == 'u' ==> q != 0x8000_0000_0000_0000
      modifies Buffers()
      ensures Valid() && temp == SLong(c, q) && WellFormed(temp, [], true)
    {
      match c {
        case 'd' => temp := Itoa(ToInt64(q));
        case 'u' => temp := Itoa(ToInt64(q));
        case 'X' => temp := Itoh(q, true);
        case _ => temp := Itoh(q, false);
      }
      LongTextPlain(c, q);
      PlainIsWellFormed(temp);
    }

    /** stdio.c: the directives "%l?" and "%ll?" of sprintf; format' starts at their last character. */
    method LongDirective(format: string, args: seq<Arg>) returns (format': string, args': seq<Arg>, temp: string)
      requires Valid() && |format| >= 2 && format[0] == '%' && format[1] == 'l' && WellFormed(format, args, true)
      modifies Buffers()
      ensures Valid() && format' != "" && |format'| < |format|
      ensures WellFormed(format'[1..], args', true) && WellFormed(temp, [], true)
      ensures if |args'| < |args| then SOut(format, args) == SOut(temp, []) + SOut(format'[1..], args')
        else args' == args && SOut(format, args) == SOut(format'[1..], args)
    {
      assert format[2..][1..] == format[3..] && (|format| >= 4 ==> format[3..][1..] == format[4..]);
      format', args', temp := format[2..], args, "";
      if IsNumber(format'[0]) {
        temp := WordTemp(format'[0], args[0].w, true);
        args' := args[1..];
      } else {
        format' := format'[1..];
        if IsNumber(format'[0]) {
          temp := LongTemp(format'[0], args[0].q);
          args' := args[1..];
        }
      }
    }

    /** The cases of the switch of sprintf that make a text for a nested sprintf, or nothing. */
    method TextDirective(format: string, args: seq<Arg>) returns (format': string, args': seq<Arg>, temp: string)
      requires Valid() && |format| >= 2 && format[0] == '%' && WellFormed(format, args, true)
      requires format[1] != 'c' && format[1] != '%'
      modifies Buffers()
      ensures Valid() && WellFormed(format', args', true) && WellFormed(temp, [], true) && |format'| < |format|
      ensures if |args'| < |args| then SOut(format, args) == SOut(temp, []) + SOut(format', args')
        else args' == args && SOut(format, args) == SOut(format', args)
    {
      assert format[1..][1..] == format[2..];
      format', args', temp := format[1..], args, "";
      match format'[0] {
        case 'd' => temp := WordTemp('d', args[0].w, false); args' := args[1..];
        case 'l' => format', args', temp := LongDirective(format, args);
        case 'p' => temp := WordTemp('p', args[0].w, false); args' := args[1..];
        case 's' => temp := args[0].s; args' := args[1..];
        case 'u' => temp := WordTemp('u', args[0].w, false); args' := args[1..];
        case 'X' => temp := WordTemp('X', args[0].w, false); args' := args[1..];
        case 'x' => temp := WordTemp('x', args[0].w, false); args' := args[1..];
        case _ =>
      }
      format' := format'[1..];
    }

    /** The switch of sprintf: `format` is at a '%'; every text but a %c or a %% is written by
        a nested sprintf without arguments. */
    method WriteDirective(str: array<char>, current: nat, format: string, args: seq<Arg>)
      returns (format': string, args': seq<Arg>, n: nat, ghost text: string)
      requires Valid() && str !in Buffers()
      requires format != "" && format[0] == '%' && WellFormed(format, args, true)
      requires current + |SOut(format, args)| < str.Length
      modifies str, Buffers()
      ensures Valid() && WellFormed(format', args', true) && |format'| < |format| && |args'| <= |args|
      ensures SOut(format, args) == text + SOut(format', args') && n == |text|
      ensures Wrote(old(str[..]), str[..], current, text)
      decreases |args|, 0
    {
      match format[1] {
        case 'c' =>
          text := [(args[0].w % 0x100) as char];
          str[current] := (args[0].w % 0x100) as char;
          format', args', n := format[2..], args[1..], 1;
        case '%' =>
          text := "%";
          str[current] := '%';
          format', args', n := format[2..], args, 1;
        case _ =>
          var temp;
          format', args', temp := TextDirective(format, args);
          n, text := 0, "";
          if |args'| < |args| {
            text := SOut(temp, []);
            n := Sprintf(str, current, temp, []);
          }
      }
    }

    /** sprintf, writing at str + at. */
    method Sprintf(str: array<char>, at: nat, format: string, args: seq<Arg>) returns (len: nat)
      requires Valid() && str !in Buffers() && WellFormed(format, args, true)
      requires at + |SOut(format, args)| < str.Length
      modifies str, Buffers()
      ensures Valid() && len == |SOut(format, args)|
      ensures Wrote(old(str[..]), str[..], at, SOut(format, args)) && str[at + len] == '\0'
      ensures UnsignedLongsSmall(format, args) && TextsReadPlain(format, args) ==>
        WellFormed(format, args, false) && Printed(format, args, str[at..at + len])
      decreases |args|, 2
    {
      var current, rest, left := at, format, args;
      ghost var m0, done := str[..], "";
      while rest != ""
        invariant Valid() && WellFormed(rest, left, true) && |left| <= |args|
        invariant current == at + |done| && SOut(format, args) == done + SOut(rest, left)
        invariant Wrote(m0, str[..], at, done)
        decreases |rest|
      {
        ghost var m1, text := str[..], "";
        var n;
        rest, left, n, text := WriteNext(str, current, rest, left);
        current := current + n;
        WroteMore(m0, m1, str[..], at, done, text);
        Regroup(done, text, SOut(rest, left));
        done := done + text;
      }
      assert done == SOut(format, args);
      Terminated(m0, str[..], at, done);
      ghost var m2 := str[..];
      str[current] := '\0';
      assert str[..] == m2[current := '\0'];
      len := current - at;
      if UnsignedLongsSmall(format, args) && TextsReadPlain(format, args) { SOutPrinted(format, args); }
    }

    /** The loop body of sprintf: an ordinary character, or a directive. */
    method WriteNext(str: array<char>, current: nat, format: string, args: seq<Arg>)
      returns (format': string, args': seq<Arg>, n: nat, ghost text: string)
      requires Valid() && str !in Buffers() && format != "" && WellFormed(format, args, true)
      requires current + |SOut(format, args)| < str.Length
      modifies str, Buffers()
      ensures Valid() && WellFormed(format', args', true) && |format'| < |format| && |args'| <= |args|
      ensures SOut(format, args) == text + SOut(format', args') && n == |text|
      ensures Wrote(old(str[..]), str[..], current, text)
      decreases |args|, 1
    {
      if format[0] != '%' {
        WriteChar(str, current, format[0]);
        format', args', n, text := format[1..], args, 1, [format[0]];
      } else {
        format', args', n, text := WriteDirective(str, current, format, args);
      }
    }

    /** One character into the buffer. */
    method WriteChar(str: array<char>, current: nat, c: char)
      requires current + 1 < str.Length
      modifies str
      ensures Wrote(old(str[..]), str[..], current, [c])
    {
      ghost var m0 := str[..];
      str[current] := c;
      assert str[..] == m0[current := c];
    }

    /** The digit loops of _itoh and _ptoa. */
    method CollectHex(num: nat, count: nat, upper: bool, temp: array<char>)
      requires temp.Length == count
      modifies temp
      ensures Reversed(temp[..]) == FixedHex(num, count, upper)
    {
      var rest, i := num, 0;
      while i < count
        invariant i <= count && HexSplit(num, count, rest, temp[..i], upper)
      {
        HexDigitMoved(num, count, rest, temp[..i], upper);
        ghost var collected := temp[..i];
        temp[i] := HexDigit(rest % 16, upper);
        assert temp[..i + 1] == collected + [DigitChar(rest % 16, upper)];
        rest := rest / 16;
        i := i + 1;
      }
      assert temp[..count] == temp[..];
    }
  }

  /** A zero at the top of the collected digits: the number fits one digit less. */
  lemma StripZero(num: nat, i: nat, collected: string, upper: bool)
    requires i > 1 && |collected| == i && num < Pow(16, i)
    requires Reversed(collected) == FixedHex(num, i, upper) && collected[i - 1] == '0'
    ensures num < Pow(16, i - 1) && Reversed(collected[..i - 1]) == FixedHex(num, i - 1, upper)
  {
    if num >= Pow(16, i - 1) { FixedHexTopDigit(num, i - 1, upper); }
    FixedHexLeadingZero(num, i - 1, upper);
    assert Reversed(collected)[1..] == Reversed(collected[..i - 1]);
    assert FixedHex(num, i, upper)[1..] == FixedHex(num, i - 1, upper);
  }

  /** No zero at the top, or a single digit: what is left is the numeral. */
  lemma Stripped(num: nat, i: nat, collected: string, upper: bool)
    requires 1 <= i && |collected| == i && num < Pow(16, i)
    requires Reversed(collected) == FixedHex(num, i, upper) && (collected[i - 1] != '0' || i == 1)
    ensures Reversed(collected) == Numeral(num, 16, upper)
  {
    assert Reversed(collected)[0] == collected[i - 1];
    assert i == 1 || Pow(16, i - 1) <= num by {
      if i > 1 && num < Pow(16, i - 1) { FixedHexLeadingZero(num, i - 1, upper); }
    }
    FixedHexIsNumeral(num, i - 1, upper);
  }
}
