/**
 The format language of the kernel's printf family, as two separate readings: what vprintf
 passes to putc and what sprintf writes. They are compared at the end.
 */
module Format {
  import opened Numerals

  /** One variadic argument as it lies on the stack: a 32-bit word, a 64-bit long long, or a
      pointer to text. */
  datatype Arg = Word(w: nat) | Long(q: nat) | Text(s: string)

  function ToInt32(w: nat): int {
    if w < 0x8000_0000 then w else w - 0x1_0000_0000
  }

  function ToInt64(q: nat): int {
    if q < 0x8000_0000_0000_0000 then q else q - 0x1_0000_0000_0000_0000
  }

  predicate IsNumber(c: char) { c == 'd' || c == 'u' || c == 'X' || c == 'x' }

  predicate TakesWord(c: char) { IsNumber(c) || c == 'c' || c == 'p' }

  /** A 32-bit argument is next. */
  predicate WordNext(args: seq<Arg>) {
    |args| > 0 && args[0].Word? && args[0].w < 0x1_0000_0000
  }

  /** A 64-bit argument is next. The negation of -2^63 is not defined in C, so where the
      conversion negates, that value is excluded. */
  predicate LongNext(args: seq<Arg>, negates: bool) {
    && |args| > 0 && args[0].Long? && args[0].q < 0x1_0000_0000_0000_0000
    && (negates ==> args[0].q != 0x8000_0000_0000_0000)
  }

  /** A text argument is next. */
  predicate TextNext(args: seq<Arg>) {
    |args| > 0 && args[0].Text?
  }

  /** The format does not end inside a directive, has no %f, and finds the arguments it reads.
      `sprintf` tells for which of the two interpreters: sprintf reads a %s text as a format in
      its turn, with no arguments left. */
  predicate WellFormed(format: string, args: seq<Arg>, sprintf: bool)
    decreases |args|, |format|
  {
    if format == "" then true
    else if format[0] != '%' then WellFormed(format[1..], args, sprintf)
    else if |format| < 2 || format[1] == 'f' then false
    else if TakesWord(format[1]) then WordNext(args) && WellFormed(format[2..], args[1..], sprintf)
    else if format[1] == 's' then
      && TextNext(args) && (sprintf ==> WellFormed(args[0].s, [], true))
      && WellFormed(format[2..], args[1..], sprintf)
    else if format[1] == 'l' then
      if |format| < 3 then false
      else if IsNumber(format[2]) then WordNext(args) && WellFormed(format[3..], args[1..], sprintf)
      else if |format| < 4 then false
      else if IsNumber(format[3]) then
        LongNext(args, format[3] == 'd' || (sprintf && format[3] == 'u')) && WellFormed(format[4..], args[1..], sprintf)
      else WellFormed(format[4..], args, sprintf)
    else WellFormed(format[2..], args, sprintf)
  }

  lemma {:induction false} SprintfFormatsArePrintfFormats(format: string, args: seq<Arg>)
    requires WellFormed(format, args, true)
    ensures WellFormed(format, args, false)
    decreases |format|
  {
    if format == "" {
    } else if format[0] != '%' {
      SprintfFormatsArePrintfFormats(format[1..], args);
    } else if TakesWord(format[1]) || format[1] == 's' {
      SprintfFormatsArePrintfFormats(format[2..], args[1..]);
    } else if format[1] == 'l' {
      if IsNumber(format[2]) {
        SprintfFormatsArePrintfFormats(format[3..], args[1..]);
      } else if IsNumber(format[3]) {
        SprintfFormatsArePrintfFormats(format[4..], args[1..]);
      } else {
        SprintfFormatsArePrintfFormats(format[4..], args);
      }
    } else {
      SprintfFormatsArePrintfFormats(format[2..], args);
    }
  }

  /** Equal heads: the wholes agree exactly when the tails do. */
  lemma SameHead(head: string, a: string, b: string)
    ensures head + a == head + b <==> a == b
  {
    if head + a == head + b {
      assert a == (head + a)[|head|..] == (head + b)[|head|..] == b;
    }
  }

  // ---------------------------------------------------------------- vprintf

  function Pointer(w: nat): string { "0x" + FixedHex(w, 8, false) }

  /** vprintf's conversion of a 32-bit argument. */
  function VWord(c: char, w: nat): string
    requires TakesWord(c) && w < 0x1_0000_0000
  {
    if c == 'c' then [(w % 0x100) as char]
    else if c == 'd' then Signed(ToInt32(w))
    else if c == 'p' then Pointer(w)
    else if c == 'u' then Numeral(w, 10, false)
    else Numeral(w, 16, c == 'X')
  }

  /** vprintf's conversion of a 64-bit argument. */
  function VLong(c: char, q: nat): string
    requires IsNumber(c)
  {
    if c == 'd' then Signed(ToInt64(q))
    else if c == 'u' then Numeral(q, 10, false)
    else Numeral(q, 16, c == 'X')
  }

  /** The characters vprintf passes to putc. */
  function VOut(format: string, args: seq<Arg>): string
    requires WellFormed(format, args, false)
  {
    if format == "" then ""
    else if format[0] != '%' then [format[0]] + VOut(format[1..], args)
    else if TakesWord(format[1]) then VWord(format[1], args[0].w) + VOut(format[2..], args[1..])
    else if format[1] == 's' then args[0].s + VOut(format[2..], args[1..])
    else if format[1] == 'l' then
      if IsNumber(format[2]) then VWord(format[2], args[0].w) + VOut(format[3..], args[1..])
      else if IsNumber(format[3]) then VLong(format[3], args[0].q) + VOut(format[4..], args[1..])
      else VOut(format[4..], args)
    else if format[1] == '%' then "%" + VOut(format[2..], args)
    else VOut(format[2..], args)
  }

  // ---------------------------------------------------------------- sprintf

  /** sprintf's temporary text for a 32-bit argument; a plain %u goes through _itoa. */
  function SWord(c: char, w: nat, long: bool): string
    requires TakesWord(c) && w < 0x1_0000_0000
  {
    if c == 'c' then [(w % 0x100) as char]
    else if c == 'd' then Signed(ToInt32(w))
    else if c == 'p' then Pointer(w)
    else if c == 'u' then (if long then Numeral(w, 10, false) else Signed(w))
    else Numeral(w, 16, c == 'X')
  }

  /** sprintf's temporary text for a 64-bit argument; %llu goes through _itoa as well. */
  function SLong(c: char, q: nat): string
    requires IsNumber(c)
  {
    if c == 'd' || c == 'u' then Signed(ToInt64(q)) else Numeral(q, 16, c == 'X')
  }

  /** The characters sprintf writes. A %c goes straight to the buffer; every other text is
      itself run through sprintf, without arguments. */
  function SOut(format: string, args: seq<Arg>): string
    requires WellFormed(format, args, true)
    decreases |args|, |format|
  {
    if format == "" then ""
    else if format[0] != '%' then [format[0]] + SOut(format[1..], args)
    else if TakesWord(format[1]) then
      if format[1] == 'c' then [(args[0].w % 0x100) as char] + SOut(format[2..], args[1..])
      else
        var temp := SWord(format[1], args[0].w, false);
        WordTextPlain(format[1], args[0].w, false);
        PlainIsWellFormed(temp);
        SOut(temp, []) + SOut(format[2..], args[1..])
    else if format[1] == 's' then SOut(args[0].s, []) + SOut(format[2..], args[1..])
    else if format[1] == 'l' then
      if IsNumber(format[2]) then
        var temp := SWord(format[2], args[0].w, true);
        WordTextPlain(format[2], args[0].w, true);
        PlainIsWellFormed(temp);
        SOut(temp, []) + SOut(format[3..], args[1..])
      else if IsNumber(format[3]) then
        var temp := SLong(format[3], args[0].q);
        LongTextPlain(format[3], args[0].q);
        PlainIsWellFormed(temp);
        SOut(temp, []) + SOut(format[4..], args[1..])
      else SOut(format[4..], args)
    else if format[1] == '%' then "%" + SOut(format[2..], args)
    else SOut(format[2..], args)
  }

  lemma SignedPlain(n: int)
    ensures '%' !in Signed(n)
  {
    NumeralShape(if n < 0 then -n else n, 10, false);
  }

  lemma {:induction false} FixedHexPlain(n: nat, k: nat)
    ensures '%' !in FixedHex(n, k, false)
  {
    if k > 0 {
      FixedHexPlain(n / 16, k - 1);
      DigitRoundTrip(n % 16, false);
    }
  }

  /** The texts of the conversions contain no '%'. */
  lemma WordTextPlain(c: char, w: nat, long: bool)
    requires TakesWord(c) && c != 'c' && w < 0x1_0000_0000
    ensures '%' !in SWord(c, w, long)
  {
    SignedPlain(ToInt32(w));
    SignedPlain(w);
    FixedHexPlain(w, 8);
    NumeralShape(w, 10, false);
    NumeralShape(w, 16, c == 'X');
  }

  lemma LongTextPlain(c: char, q: nat)
    requires IsNumber(c)
    ensures '%' !in SLong(c, q)
  {
    SignedPlain(ToInt64(q));
    NumeralShape(q, 16, c == 'X');
  }

  lemma {:induction false} PlainIsWellFormed(text: string)
    requires '%' !in text
    ensures WellFormed(text, [], true)
  {
    if text != "" {
      assert text[0] in text;
      PlainIsWellFormed(text[1..]);
    }
  }

  /** Running text through sprintf never lengthens it, and copies it exactly when it has no
      '%': each directive, even "%%", comes out shorter than it went in. */
  lemma {:induction false} CopiedExactly(text: string)
    requires WellFormed(text, [], true)
    ensures |SOut(text, [])| <= |text|
    ensures SOut(text, []) == text <==> '%' !in text
    ensures '%' in text ==> |SOut(text, [])| < |text|
    decreases |text|
  {
    if text == "" {
    } else if text[0] != '%' {
      CopiedExactly(text[1..]);
      SameHead([text[0]], SOut(text[1..], []), text[1..]);
      assert text == [text[0]] + text[1..];
    } else {
      CopiedExactly(text[if text[1] == 'l' then 4 else 2..]);
    }
  }

  // ---------------------------------------------------------------- agreement

  /** Every %llu argument is below 2^63. */
  predicate UnsignedLongsSmall(format: string, args: seq<Arg>)
    requires WellFormed(format, args, true)
  {
    if format == "" then true
    else if format[0] != '%' then UnsignedLongsSmall(format[1..], args)
    else if TakesWord(format[1]) || format[1] == 's' then UnsignedLongsSmall(format[2..], args[1..])
    else if format[1] == 'l' then
      if IsNumber(format[2]) then UnsignedLongsSmall(format[3..], args[1..])
      else if IsNumber(format[3]) then
        (format[3] == 'u' ==> args[0].q < 0x8000_0000_0000_0000) && UnsignedLongsSmall(format[4..], args[1..])
      else UnsignedLongsSmall(format[4..], args)
    else UnsignedLongsSmall(format[2..], args)
  }

  /** A large %llu shows a minus sign in sprintf and a digit in vprintf. */
  lemma LargeUnsignedDiffers(q: nat, a: string, b: string)
    requires 0x8000_0000_0000_0000 <= q < 0x1_0000_0000_0000_0000
    ensures SLong('u', q) + a != VLong('u', q) + b
  {
    NumeralShape(q, 10, false);
    assert VLong('u', q)[0] in VLong('u', q);
    assert (SLong('u', q) + a)[0] == '-' != (VLong('u', q) + b)[0];
  }

  /** No text that the format reads contains a '%'. */
  predicate TextsReadPlain(format: string, args: seq<Arg>)
    requires WellFormed(format, args, true)
  {
    if format == "" then true
    else if format[0] != '%' then TextsReadPlain(format[1..], args)
    else if TakesWord(format[1]) then TextsReadPlain(format[2..], args[1..])
    else if format[1] == 's' then '%' !in args[0].s && TextsReadPlain(format[2..], args[1..])
    else if format[1] == 'l' then
      if IsNumber(format[2]) then TextsReadPlain(format[3..], args[1..])
      else if IsNumber(format[3]) then TextsReadPlain(format[4..], args[1..])
      else TextsReadPlain(format[4..], args)
    else TextsReadPlain(format[2..], args)
  }

  /** The two interpreters agree exactly when no %llu argument has its top bit set and no text
      read contains a '%': neither difference can make up for the other. */
  lemma InterpretersAgreeExactly(format: string, args: seq<Arg>)
    requires WellFormed(format, args, true)
    ensures WellFormed(format, args, false)
    ensures SOut(format, args) == VOut(format, args) <==>
      UnsignedLongsSmall(format, args) && TextsReadPlain(format, args)
  {
    SprintfFormatsArePrintfFormats(format, args);
    if TextsReadPlain(format, args) {
      AgreeOnPlainTexts(format, args);
    } else {
      PercentsKept(format, args);
    }
  }

  /** How many percent signs there are in a text. */
  function Percents(text: string): nat {
    if text == "" then 0 else (if text[0] == '%' then 1 else 0) + Percents(text[1..])
  }

  lemma {:induction false} PercentsConcat(a: string, b: string)
    ensures Percents(a + b) == Percents(a) + Percents(b)
  {
    if a == "" {
      assert a + b == b;
    } else {
      assert (a + b)[1..] == a[1..] + b;
      PercentsConcat(a[1..], b);
    }
  }

  lemma {:induction false} NoPercents(text: string)
    ensures Percents(text) == 0 <==> '%' !in text
  {
    if text != "" {
      NoPercents(text[1..]);
      assert text == [text[0]] + text[1..];
    }
  }

  /** Running a text through sprintf loses one percent sign or more, if it has any. */
  lemma {:induction false} TextLosesPercents(text: string)
    requires WellFormed(text, [], true)
    ensures Percents(SOut(text, [])) <= Percents(text)
    ensures '%' in text ==> Percents(SOut(text, [])) < Percents(text)
    decreases |text|
  {
    if text == "" {
    } else if text[0] != '%' {
      TextLosesPercents(text[1..]);
      PercentsConcat([text[0]], SOut(text[1..], []));
      assert text == [text[0]] + text[1..];
    } else {
      var n := if text[1] == 'l' then 4 else 2;
      TextLosesPercents(text[n..]);
      DirectivePercents(text, n);
      PercentsConcat("%", SOut(text[n..], []));
    }
  }

  /** A directive has a percent sign, and "%%" has two. */
  lemma DirectivePercents(text: string, n: nat)
    requires 2 <= n <= |text| && text[0] == '%'
    ensures Percents(text) >= (if text[1] == '%' then 2 else 1) + Percents(text[n..])
  {
    assert text[1..][1..] == text[2..];
    assert Percents(text) == 1 + Percents(text[1..]);
    PercentsConcat(text[2..n], text[n..]);
    assert text[2..] == text[2..n] + text[n..];
  }

  /** sprintf writes fewer percent signs than vprintf as soon as a text read has one. */
  lemma {:induction false} PercentsKept(format: string, args: seq<Arg>)
    requires WellFormed(format, args, true) && WellFormed(format, args, false)
    ensures Percents(SOut(format, args)) <= Percents(VOut(format, args))
    ensures !TextsReadPlain(format, args) ==> Percents(SOut(format, args)) < Percents(VOut(format, args))
    decreases |format|
  {
    if format == "" {
    } else if format[0] != '%' {
      PercentsKept(format[1..], args);
      SamePercents([format[0]], [format[0]], SOut(format[1..], args), VOut(format[1..], args));
    } else if TakesWord(format[1]) {
      PercentsKept(format[2..], args[1..]);
      if format[1] != 'c' { WordCopied(format[1], args[0].w, false); }
      var text := VWord(format[1], args[0].w);
      SamePercents(text, text, SOut(format[2..], args[1..]), VOut(format[2..], args[1..]));
    } else if format[1] == 's' {
      PercentsKept(format[2..], args[1..]);
      TextLosesPercents(args[0].s);
      SamePercents(SOut(args[0].s, []), args[0].s, SOut(format[2..], args[1..]), VOut(format[2..], args[1..]));
    } else if format[1] == 'l' {
      LongPercentsKept(format, args);
    } else {
      PercentsKept(format[2..], args);
      SamePercents("%", "%", SOut(format[2..], args), VOut(format[2..], args));
    }
  }

  lemma SamePercents(a: string, b: string, s: string, v: string)
    requires Percents(a) <= Percents(b) && Percents(s) <= Percents(v)
    ensures Percents(a + s) <= Percents(b + v)
    ensures Percents(a) < Percents(b) || Percents(s) < Percents(v) ==> Percents(a + s) < Percents(b + v)
  {
    PercentsConcat(a, s);
    PercentsConcat(b, v);
  }

  lemma {:induction false} LongPercentsKept(format: string, args: seq<Arg>)
    requires WellFormed(format, args, true) && WellFormed(format, args, false)
    requires |format| >= 2 && format[0] == '%' && format[1] == 'l'
    ensures Percents(SOut(format, args)) <= Percents(VOut(format, args))
    ensures !TextsReadPlain(format, args) ==> Percents(SOut(format, args)) < Percents(VOut(format, args))
    decreases |format|, 0
  {
    if IsNumber(format[2]) {
      PercentsKept(format[3..], args[1..]);
      WordCopied(format[2], args[0].w, true);
      var text := VWord(format[2], args[0].w);
      SamePercents(text, text, SOut(format[3..], args[1..]), VOut(format[3..], args[1..]));
    } else if IsNumber(format[3]) {
      PercentsKept(format[4..], args[1..]);
      LongsHaveNoPercents(format[3], args[0].q);
      SamePercents(SOut(SLong(format[3], args[0].q), []), VLong(format[3], args[0].q),
        SOut(format[4..], args[1..]), VOut(format[4..], args[1..]));
    } else {
      PercentsKept(format[4..], args);
    }
  }

  lemma LongsHaveNoPercents(c: char, q: nat)
    requires IsNumber(c)
    ensures WellFormed(SLong(c, q), [], true)
    ensures Percents(SOut(SLong(c, q), [])) == Percents(VLong(c, q)) == 0
  {
    LongTextPlain(c, q);
    PlainIsWellFormed(SLong(c, q));
    CopiedExactly(SLong(c, q));
    NoPercents(SLong(c, q));
    SignedPlain(ToInt64(q));
    NumeralShape(q, 10, false);
    NumeralShape(q, 16, c == 'X');
    NoPercents(VLong(c, q));
  }

  /** With plain texts, only the large %llu arguments make a difference. */
  lemma {:induction false} AgreeOnPlainTexts(format: string, args: seq<Arg>)
    requires WellFormed(format, args, true) && TextsReadPlain(format, args)
    ensures WellFormed(format, args, false)
    ensures SOut(format, args) == VOut(format, args) <==> UnsignedLongsSmall(format, args)
    decreases |format|
  {
    SprintfFormatsArePrintfFormats(format, args);
    if format == "" {
    } else if format[0] != '%' {
      AgreeOnPlainTexts(format[1..], args);
      SameHead([format[0]], SOut(format[1..], args), VOut(format[1..], args));
    } else if TakesWord(format[1]) {
      AgreeOnPlainTexts(format[2..], args[1..]);
      if format[1] != 'c' { WordCopied(format[1], args[0].w, false); }
      SameHead(VWord(format[1], args[0].w), SOut(format[2..], args[1..]), VOut(format[2..], args[1..]));
    } else if format[1] == 's' {
      AgreeOnPlainTexts(format[2..], args[1..]);
      CopiedExactly(args[0].s);
      SameHead(args[0].s, SOut(format[2..], args[1..]), VOut(format[2..], args[1..]));
    } else if format[1] == 'l' {
      AgreeOnLongs(format, args);
    } else if format[1] == '%' {
      AgreeOnPlainTexts(format[2..], args);
      SameHead("%", SOut(format[2..], args), VOut(format[2..], args));
    } else {
      AgreeOnPlainTexts(format[2..], args);
    }
  }

  lemma {:induction false} AgreeOnLongs(format: string, args: seq<Arg>)
    requires WellFormed(format, args, true) && WellFormed(format, args, false) && TextsReadPlain(format, args)
    requires |format| >= 2 && format[0] == '%' && format[1] == 'l'
    ensures SOut(format, args) == VOut(format, args) <==> UnsignedLongsSmall(format, args)
    decreases |format|, 0
  {
    if IsNumber(format[2]) {
      AgreeOnPlainTexts(format[3..], args[1..]);
      WordCopied(format[2], args[0].w, true);
      SameHead(VWord(format[2], args[0].w), SOut(format[3..], args[1..]), VOut(format[3..], args[1..]));
    } else if IsNumber(format[3]) {
      AgreeOnPlainTexts(format[4..], args[1..]);
      LongTextPlain(format[3], args[0].q);
      PlainIsWellFormed(SLong(format[3], args[0].q));
      CopiedExactly(SLong(format[3], args[0].q));
      if format[3] == 'u' && args[0].q >= 0x8000_0000_0000_0000 {
        LargeUnsignedDiffers(args[0].q, SOut(format[4..], args[1..]), VOut(format[4..], args[1..]));
      } else {
        SameHead(VLong(format[3], args[0].q), SOut(format[4..], args[1..]), VOut(format[4..], args[1..]));
      }
    } else {
      AgreeOnPlainTexts(format[4..], args);
    }
  }

  /** For 32-bit arguments the detours change nothing. */
  lemma WordCopied(c: char, w: nat, long: bool)
    requires TakesWord(c) && c != 'c' && w < 0x1_0000_0000
    ensures WellFormed(SWord(c, w, long), [], true)
    ensures SOut(SWord(c, w, long), []) == VWord(c, w)
  {
    WordTextPlain(c, w, long);
    PlainIsWellFormed(SWord(c, w, long));
    CopiedExactly(SWord(c, w, long));
  }

  // ---------------------------------------------------------------- what the directives mean

  /** `text` is the decimal of w read in two's complement: the number in the signed range that is
      congruent to w, with no redundant zero. */
  predicate ShowsSigned(text: string, w: nat, modulus: nat)
    requires modulus > 0
  {
    && -(modulus as int) / 2 <= SignedValue(text) < modulus / 2
    && (SignedValue(text) - w) % modulus == 0
    && var digits := if text != "" && text[0] == '-' then text[1..] else text;
       digits != "" && (digits[0] == '0' ==> text == "0") && forall c :: c in digits ==> IsDigit(c, 10, false)
  }

  /** `text` is w in the given base, with digits of one case and no redundant zero. */
  predicate ShowsUnsigned(text: string, w: nat, base: nat, upper: bool) {
    && text != "" && Value(text, base) == w && (text[0] == '0' ==> w == 0)
    && forall c :: c in text ==> IsDigit(c, base, upper)
  }

  /** What a directive letter makes of a number of 32 (`modulus` 2^32) or 64 bits. */
  predicate ShowsNumber(c: char, text: string, w: nat, modulus: nat)
    requires modulus > 0
  {
    match c
    case 'd' => ShowsSigned(text, w, modulus)
    case 'u' => ShowsUnsigned(text, w, 10, false)
    case 'x' => ShowsUnsigned(text, w, 16, false)
    case 'X' => ShowsUnsigned(text, w, 16, true)
    case _ => false
  }

  predicate ShowsPointer(text: string, w: nat) {
    && |text| == 10 && text[..2] == "0x" && Value(text[2..], 16) == w
    && forall c :: c in text[2..] ==> IsDigit(c, 16, false)
  }

  /** `out` is what the format asks for, piece by piece. */
  ghost predicate Printed(format: string, args: seq<Arg>, out: string)
    requires WellFormed(format, args, false)
    decreases |format|
  {
    if format == "" then out == ""
    else if format[0] != '%' then out != "" && out[0] == format[0] && Printed(format[1..], args, out[1..])
    else
      match format[1]
      case 'c' => out != "" && out[0] as int == args[0].w % 0x100 && Printed(format[2..], args[1..], out[1..])
      case 'p' => |out| >= 10 && ShowsPointer(out[..10], args[0].w) && Printed(format[2..], args[1..], out[10..])
      case 's' => args[0].s <= out && Printed(format[2..], args[1..], out[|args[0].s|..])
      case '%' => out != "" && out[0] == '%' && Printed(format[2..], args, out[1..])
      case 'l' =>
        if IsNumber(format[2]) then
          exists n: nat :: n <= |out| && ShowsNumber(format[2], out[..n], args[0].w, 0x1_0000_0000)
            && Printed(format[3..], args[1..], out[n..])
        else if IsNumber(format[3]) then
          exists n: nat :: n <= |out| && ShowsNumber(format[3], out[..n], args[0].q, 0x1_0000_0000_0000_0000)
            && Printed(format[4..], args[1..], out[n..])
        else Printed(format[4..], args, out)
      case letter =>
        if IsNumber(letter) then
          exists n: nat :: n <= |out| && ShowsNumber(letter, out[..n], args[0].w, 0x1_0000_0000)
            && Printed(format[2..], args[1..], out[n..])
        else Printed(format[2..], args, out)
  }

  lemma SignedText(n: int)
    ensures var text := Signed(n);
      var digits := if text != "" && text[0] == '-' then text[1..] else text;
      digits != "" && (digits[0] == '0' ==> text == "0") && forall c :: c in digits ==> IsDigit(c, 10, false)
  {
    var m: nat := if n < 0 then -n else n;
    NumeralShape(m, 10, false);
    NumeralDigits(m, 10, false);
    if n < 0 {
      assert Signed(n)[1..] == Numeral(m, 10, false);
    } else {
      assert Numeral(m, 10, false)[0] in Numeral(m, 10, false);
    }
  }

  lemma SignedShows(n: int, w: nat, modulus: nat)
    requires modulus == 0x1_0000_0000 || modulus == 0x1_0000_0000_0000_0000
    requires -(modulus as int) / 2 <= n < modulus / 2 && (n == w || n == w - modulus)
    ensures ShowsSigned(Signed(n), w, modulus)
  {
    SignedRoundTrip(n);
    SignedText(n);
    if modulus == 0x1_0000_0000 {
      assert (n - w) % 0x1_0000_0000 == 0;
    } else {
      assert (n - w) % 0x1_0000_0000_0000_0000 == 0;
    }
  }

  lemma NumeralShows(w: nat, base: nat, upper: bool)
    requires base == 10 || base == 16
    ensures ShowsUnsigned(Numeral(w, base, upper), w, base, upper)
  {
    NumeralRoundTrip(w, base, upper);
    NumeralShape(w, base, upper);
    NumeralDigits(w, base, upper);
  }

  lemma WordShows(c: char, w: nat)
    requires IsNumber(c) && w < 0x1_0000_0000
    ensures ShowsNumber(c, VWord(c, w), w, 0x1_0000_0000)
  {
    NumeralShows(w, 10, false);
    NumeralShows(w, 16, c == 'X');
    SignedShows(ToInt32(w), w, 0x1_0000_0000);
  }

  lemma LongShows(c: char, q: nat)
    requires IsNumber(c) && q < 0x1_0000_0000_0000_0000
    ensures ShowsNumber(c, VLong(c, q), q, 0x1_0000_0000_0000_0000)
  {
    NumeralShows(q, 10, false);
    NumeralShows(q, 16, c == 'X');
    SignedShows(ToInt64(q), q, 0x1_0000_0000_0000_0000);
  }

  lemma PointerShows(w: nat)
    requires w < 0x1_0000_0000
    ensures ShowsPointer(Pointer(w), w)
  {
    PowBounds();
    FixedHexRoundTrip(w, 8, false);
    FixedHexDigits(w, 8, false);
    assert Pointer(w)[2..] == FixedHex(w, 8, false);
  }

  /** vprintf prints what the format asks for. */
  lemma {:induction false} VOutPrinted(format: string, args: seq<Arg>)
    requires WellFormed(format, args, false)
    ensures Printed(format, args, VOut(format, args))
    decreases |format|
  {
    var out := VOut(format, args);
    if format == "" {
    } else if format[0] != '%' {
      VOutPrinted(format[1..], args);
      assert out[1..] == VOut(format[1..], args);
    } else if TakesWord(format[1]) {
      VOutPrinted(format[2..], args[1..]);
      WordPrinted(format, args, VWord(format[1], args[0].w), VOut(format[2..], args[1..]));
    } else if format[1] == 's' {
      VOutPrinted(format[2..], args[1..]);
      assert out[|args[0].s|..] == VOut(format[2..], args[1..]);
    } else if format[1] == 'l' {
      LongPrinted(format, args);
    } else {
      VOutPrinted(format[2..], args);
      if format[1] == '%' { assert out[1..] == VOut(format[2..], args); }
    }
  }

  lemma WordPrinted(format: string, args: seq<Arg>, text: string, rest: string)
    requires WellFormed(format, args, false) && |format| >= 2 && format[0] == '%' && TakesWord(format[1])
    requires text == VWord(format[1], args[0].w) && Printed(format[2..], args[1..], rest)
    ensures Printed(format, args, text + rest)
  {
    var w := args[0].w;
    assert (text + rest)[..|text|] == text && (text + rest)[|text|..] == rest;
    if format[1] == 'p' {
      PointerShows(w);
    } else if format[1] != 'c' {
      WordShows(format[1], w);
    }
  }

  lemma {:induction false} LongPrinted(format: string, args: seq<Arg>)
    requires WellFormed(format, args, false) && |format| >= 2 && format[0] == '%' && format[1] == 'l'
    ensures Printed(format, args, VOut(format, args))
    decreases |format|, 0
  {
    var out := VOut(format, args);
    if IsNumber(format[2]) {
      VOutPrinted(format[3..], args[1..]);
      WordShows(format[2], args[0].w);
      PieceFound(VWord(format[2], args[0].w), VOut(format[3..], args[1..]));
    } else if IsNumber(format[3]) {
      VOutPrinted(format[4..], args[1..]);
      LongShows(format[3], args[0].q);
      PieceFound(VLong(format[3], args[0].q), VOut(format[4..], args[1..]));
    } else {
      VOutPrinted(format[4..], args);
    }
  }

  lemma PieceFound(a: string, b: string)
    ensures (a + b)[..|a|] == a && (a + b)[|a|..] == b
  {
  }

  /** One directive for a 32-bit number, in both interpreters. */
  lemma OneWordPrinted(c: char, w: nat)
    requires IsNumber(c) && w < 0x1_0000_0000
    ensures WellFormed(['%', c], [Word(w)], true) && WellFormed(['%', c], [Word(w)], false)
    ensures ShowsNumber(c, VOut(['%', c], [Word(w)]), w, 0x1_0000_0000)
    ensures ShowsNumber(c, SOut(['%', c], [Word(w)]), w, 0x1_0000_0000)
  {
    var format, args := ['%', c], [Word(w)];
    assert format[2..] == "" && args[1..] == [];
    WordShows(c, w);
    WordCopied(c, w, false);
    assert VOut(format, args) == VWord(c, w);
  }

  /** One directive for a 64-bit number: sprintf reads %llu as signed. */
  lemma OneLongPrinted(c: char, q: nat)
    requires IsNumber(c) && q < 0x1_0000_0000_0000_0000 && (c == 'd' || c == 'u' ==> q != 0x8000_0000_0000_0000)
    ensures WellFormed(['%', 'l', 'l', c], [Long(q)], true) && WellFormed(['%', 'l', 'l', c], [Long(q)], false)
    ensures ShowsNumber(c, VOut(['%', 'l', 'l', c], [Long(q)]), q, 0x1_0000_0000_0000_0000)
    ensures ShowsNumber(if c == 'u' then 'd' else c, SOut(['%', 'l', 'l', c], [Long(q)]), q, 0x1_0000_0000_0000_0000)
  {
    var format, args := ['%', 'l', 'l', c], [Long(q)];
    assert format[4..] == "" && args[1..] == [];
    LongShows(c, q);
    LongShows('d', q);
    LongTextPlain(c, q);
    PlainIsWellFormed(SLong(c, q));
    CopiedExactly(SLong(c, q));
    assert VOut(format, args) == VLong(c, q);
    assert SOut(format, args) == SLong(c, q);
  }

  /** So does sprintf, exactly where it agrees with vprintf. */
  lemma SOutPrinted(format: string, args: seq<Arg>)
    requires WellFormed(format, args, true) && UnsignedLongsSmall(format, args) && TextsReadPlain(format, args)
    ensures WellFormed(format, args, false) && Printed(format, args, SOut(format, args))
  {
    InterpretersAgreeExactly(format, args);
    VOutPrinted(format, args);
  }
}
