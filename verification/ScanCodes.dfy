/** The keymap and the shift/caps machine, as functions of a sequence of scan codes. */
module ScanCodes {

  /** One row of the keymap, column by column; 0 where the table has nothing. */
  function Row(code: nat, digits: string, top: string, home: string, grave: char, slash: char, bottom: string): char
    requires |digits| == 12 && |top| == 12 && |home| == 11 && |bottom| == 10
  {
    if 0x02 <= code <= 0x0d then digits[code - 0x02]
    else if code == 0x0e then '\U{8}'
    else if code == 0x0f then '\t'
    else if 0x10 <= code <= 0x1b then top[code - 0x10]
    else if code == 0x1c then '\n'
    else if 0x1e <= code <= 0x28 then home[code - 0x1e]
    else if code == 0x29 then grave
    else if code == 0x2a then '\U{2a}'
    else if code == 0x2b then slash
    else if 0x2c <= code <= 0x35 then bottom[code - 0x2c]
    else if code == 0x36 then '\U{36}'
    else if code == 0x37 then '*'
    else if code == 0x39 then ' '
    else if code == 0x3a then '\U{3a}'
    else if 0x47 <= code <= 0x53 then "789-456+1230."[code - 0x47]
    else '\0'
  }

  /** keymap[row][code]; bit 0 of the row is shift, bit 1 caps lock. */
  function Keymap(row: nat, code: nat): char
    requires row < 4 && code < 0x80
  {
    match row
    case 0 => Row(code, "1234567890-=", "qwertyuiop[]", "asdfghjkl;'", '`', '\\', "zxcvbnm,./")
    case 1 => Row(code, "!@#$%^&*()_+", "QWERTYUIOP{}", "ASDFGHJKL:\"", '~', '|', "ZXCVBNM<>?")
    case 2 => Row(code, "1234567890-=", "QWERTYUIOP[]", "ASDFGHJKL;'", '`', '\\', "ZXCVBNM,./")
    case _ => Row(code, "!@#$%^&*()_+", "qwertyuiop{}", "asdfghjkl:\"", '~', '|', "zxcvbnm<>?")
  }

  /** keymap[0][code] for any byte: codes from 0x80 on run over into row 1. */
  function FlatKey(code: nat): char
    requires code < 0x100
  {
    Keymap(code / 0x80, code % 0x80)
  }

  predicate IsShift(code: nat) { code == 0x2a || code == 0x36 }

  type Codes = s: seq<nat> | forall i :: 0 <= i < |s| ==> s[i] < 0x100

  // ---------------------------------------------------------------- the machine

  datatype Machine = Machine(status: nat, text: string)

  /** What one code does to the status and the screen. */
  function Feed(m: Machine, code: nat): (r: Machine)
    requires m.status < 4
    ensures r.status < 4
  {
    if IsShift(code) then m.(status := m.status / 2 * 2 + 1)
    else if code == 0x3a then m.(status := (m.status + 2) % 4)
    else if code == 0xaa || code == 0xb6 then m.(status := m.status / 2 * 2)
    else if code < 0x80 && Keymap(m.status, code) != '\0' then m.(text := m.text + [Keymap(m.status, code)])
    else m
  }

  /** The machine run directly over a whole sequence of codes. */
  function FeedAll(codes: seq<nat>): (r: Machine)
    ensures r.status < 4
  {
    if codes == [] then Machine(0, "") else Feed(FeedAll(codes[..|codes| - 1]), codes[|codes| - 1])
  }

  // ---------------------------------------------------------------- what a typist sees

  /** A shift key went down, and none came up after that. */
  ghost predicate ShiftHeld(codes: seq<nat>) {
    exists i :: 0 <= i < |codes| && codes[i] in {0x2a, 0x36} &&
      forall k :: i < k < |codes| ==> codes[k] !in {0xaa, 0xb6}
  }

  /** The caps lock key went down an odd number of times. */
  ghost predicate CapsLocked(codes: seq<nat>) { multiset(codes)[0x3a] % 2 == 1 }

  ghost function RowAfter(codes: seq<nat>): (row: nat)
    ensures row < 4
  {
    (if ShiftHeld(codes) then 1 else 0) + (if CapsLocked(codes) then 2 else 0)
  }

  /** A key press that shows on the screen. */
  predicate Types(code: nat) { code < 0x80 && code !in {0x2a, 0x36, 0x3a} && Keymap(0, code) != '\0' }

  function TypedCount(codes: seq<nat>): nat {
    if codes == [] then 0
    else TypedCount(codes[..|codes| - 1]) + if Types(codes[|codes| - 1]) then 1 else 0
  }

  /** The n-th typing key shows as the n-th character, in the row that shift and caps lock gave
      when it was pressed; nothing else shows, and the status is the present row. */
  ghost predicate Transcript(codes: seq<nat>, status: nat, text: string) {
    && status == RowAfter(codes) && |text| == TypedCount(codes)
    && forall i :: 0 <= i < |codes| && Types(codes[i]) ==>
         && TypedCount(codes[..i]) < |text|
         && text[TypedCount(codes[..i])] == Keymap(RowAfter(codes[..i]), codes[i])
  }

  lemma RowSnoc(codes: seq<nat>, code: nat)
    ensures ShiftHeld(codes + [code]) <==> code in {0x2a, 0x36} || (ShiftHeld(codes) && code !in {0xaa, 0xb6})
    ensures CapsLocked(codes + [code]) <==> CapsLocked(codes) != (code == 0x3a)
  {
    var all := codes + [code];
    if code in {0x2a, 0x36} {
      assert all[|codes|] in {0x2a, 0x36};
    } else if ShiftHeld(codes) && code !in {0xaa, 0xb6} {
      var i :| 0 <= i < |codes| && codes[i] in {0x2a, 0x36} &&
        forall k :: i < k < |codes| ==> codes[k] !in {0xaa, 0xb6};
      assert all[i] in {0x2a, 0x36};
    } else if ShiftHeld(all) {
      var i :| 0 <= i < |all| && all[i] in {0x2a, 0x36} && forall k :: i < k < |all| ==> all[k] !in {0xaa, 0xb6};
      assert all[|codes|] == code;
      assert codes[i] in {0x2a, 0x36};
      assert forall k :: i < k < |codes| ==> all[k] == codes[k];
    }
  }

  /** One code, in these terms. */
  lemma FeedTypes(m: Machine, code: nat)
    requires m.status < 4
    ensures Feed(m, code).text == m.text + if Types(code) then [Keymap(m.status, code)] else ""
    ensures Feed(m, code).status % 2 == 1 <==>
      code in {0x2a, 0x36} || (m.status % 2 == 1 && code !in {0xaa, 0xb6})
    ensures Feed(m, code).status / 2 == 1 <==> (m.status / 2 == 1) != (code == 0x3a)
  {
    if code < 0x80 { SameEmptyColumns(m.status, code); }
  }

  lemma TypedSnoc(codes: seq<nat>, code: nat)
    ensures TypedCount(codes + [code]) == TypedCount(codes) + if Types(code) then 1 else 0
  {
    assert (codes + [code])[..|codes|] == codes;
  }

  lemma TranscriptSnoc(codes: seq<nat>, m: Machine, code: nat)
    requires m.status < 4 && Transcript(codes, m.status, m.text)
    ensures Transcript(codes + [code], Feed(m, code).status, Feed(m, code).text)
  {
    var all, m' := codes + [code], Feed(m, code);
    RowSnoc(codes, code);
    FeedTypes(m, code);
    TypedSnoc(codes, code);
    forall i | 0 <= i < |all| && Types(all[i])
      ensures TypedCount(all[..i]) < |m'.text|
      ensures m'.text[TypedCount(all[..i])] == Keymap(RowAfter(all[..i]), all[i])
    {
      if i < |codes| {
        assert all[..i] == codes[..i] && all[i] == codes[i];
      } else {
        assert all[..i] == codes && all[i] == code;
      }
    }
  }

  /** The machine writes the transcript of its codes, whatever they are. */
  lemma {:induction false} FeedAllTranscript(codes: seq<nat>)
    ensures Transcript(codes, FeedAll(codes).status, FeedAll(codes).text)
  {
    if codes != [] {
      var init, code := codes[..|codes| - 1], codes[|codes| - 1];
      FeedAllTranscript(init);
      TranscriptSnoc(init, FeedAll(init), code);
      assert codes == init + [code];
    }
  }

  /** For example: shift down, a, shift up, a. */
  lemma ShiftComesOff()
    ensures FeedAll([0x2a, 0x1e, 0xaa, 0x1e]) == Machine(0, "Aa")
  {
    var codes := [0x2a, 0x1e, 0xaa, 0x1e];
    assert codes[..3] == [0x2a, 0x1e, 0xaa] && codes[..3][..2] == [0x2a, 0x1e] && codes[..3][..2][..1] == [0x2a];
    assert FeedAll([0x2a]) == Machine(1, "");
    assert FeedAll([0x2a, 0x1e]) == Machine(1, "A");
    assert FeedAll([0x2a, 0x1e, 0xaa]) == Machine(0, "A");
  }

  predicate IsLower(c: char) { 'a' <= c <= 'z' }

  /** The other character on a key of the main block. */
  function ShiftedSign(c: char): char {
    match c
    case '1' => '!' case '2' => '@' case '3' => '#' case '4' => '$' case '5' => '%'
    case '6' => '^' case '7' => '&' case '8' => '*' case '9' => '(' case '0' => ')'
    case '-' => '_' case '=' => '+' case '[' => '{' case ']' => '}' case ';' => ':'
    case '\'' => '"' case '`' => '~' case '\\' => '|' case ',' => '<' case '.' => '>'
    case '/' => '?' case _ => c
  }

  /** How the rows relate: shift and caps lock both turn a letter into its capital and cancel
      each other; caps lock leaves every other key alone, and shift gives the other sign on the
      keys of the main block. */
  predicate RowsRelated(code: nat)
    requires code < 0x80
  {
    var plain := Keymap(0, code);
    if IsLower(plain) then
      Keymap(1, code) == Keymap(2, code) == plain - 'a' + 'A' && Keymap(3, code) == plain
    else
      Keymap(2, code) == plain && Keymap(3, code) == Keymap(1, code) &&
      Keymap(1, code) == if code < 0x37 && code !in {0x2a, 0x36} then ShiftedSign(plain) else plain
  }

  lemma RowsRelate(code: nat)
    requires code < 0x80
    ensures RowsRelated(code)
  {
    if 0x02 <= code <= 0x0d {
      DigitsRelate(code);
    } else if 0x10 <= code <= 0x1b {
      TopRelates(code);
    } else if 0x1e <= code <= 0x28 {
      HomeRelates(code);
    } else if 0x2c <= code <= 0x35 {
      BottomRelates(code);
    } else {
      OthersRelate(code);
    }
  }

  lemma DigitsRelate(code: nat)
    requires 0x02 <= code <= 0x0d
    ensures RowsRelated(code)
  {
  }

  lemma TopRelates(code: nat)
    requires 0x10 <= code <= 0x1b
    ensures RowsRelated(code)
  {
  }

  lemma HomeRelates(code: nat)
    requires 0x1e <= code <= 0x28
    ensures RowsRelated(code)
  {
  }

  lemma BottomRelates(code: nat)
    requires 0x2c <= code <= 0x35
    ensures RowsRelated(code)
  {
  }

  lemma OthersRelate(code: nat)
    requires code < 0x80 && !(0x02 <= code <= 0x0d) && !(0x10 <= code <= 0x1b)
    requires !(0x1e <= code <= 0x28) && !(0x2c <= code <= 0x35)
    ensures RowsRelated(code)
  {
  }

  // ---------------------------------------------------------------- the filter

  function Last(codes: seq<nat>): nat {
    if codes == [] then 0 else codes[|codes| - 1]
  }

  /** Is a code put into the ring, given the ones accepted before it? */
  predicate Accepts(accepted: seq<nat>, code: nat)
    requires code < 0x100
  {
    FlatKey(code) != '\0' && !(IsShift(code) && code == Last(accepted))
  }

  /** What a ring that never fills accepts of a sequence of codes. */
  function Accepted(codes: Codes): (r: Codes) {
    if codes == [] then []
    else
      var before := Accepted(codes[..|codes| - 1]);
      var code := codes[|codes| - 1];
      if Accepts(before, code) then before + [code] else before
  }

  lemma AcceptedSnoc(codes: Codes, code: nat)
    requires code < 0x100
    ensures Accepted(codes + [code]) ==
      if Accepts(Accepted(codes), code) then Accepted(codes) + [code] else Accepted(codes)
  {
  }

  /** All four rows are empty in the same columns. */
  lemma SameEmptyColumns(row: nat, code: nat)
    requires row < 4 && code < 0x80
    ensures Keymap(row, code) == '\0' <==> Keymap(0, code) == '\0'
  {
  }

  /** A code without a key in the flat table does nothing to the machine. */
  lemma UnmappedIsIdle(m: Machine, code: nat)
    requires m.status < 4 && code < 0x100 && FlatKey(code) == '\0'
    ensures Feed(m, code) == m
  {
    if code < 0x80 { SameEmptyColumns(m.status, code); }
  }

  /** After a shift code, shift is on. */
  lemma ShiftIsOn(codes: seq<nat>)
    requires IsShift(Last(codes))
    ensures FeedAll(codes).status % 2 == 1
  {
  }

  /** The filter is invisible: dropping unmapped codes and repeated shifts changes neither the
      text nor the final status. */
  lemma {:induction false} FilterIsInvisible(codes: Codes)
    ensures FeedAll(Accepted(codes)) == FeedAll(codes)
  {
    if codes != [] {
      var init, code := codes[..|codes| - 1], codes[|codes| - 1];
      var before := Accepted(init);
      FilterIsInvisible(init);
      if FlatKey(code) == '\0' {
        UnmappedIsIdle(FeedAll(before), code);
      } else if IsShift(code) && code == Last(before) {
        ShiftIsOn(before);
      } else {
        assert (before + [code])[..|before|] == before;
      }
    }
  }
}
