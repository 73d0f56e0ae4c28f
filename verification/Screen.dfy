/** Pixels, glyphs and the text cursor as functions: what the console shows and where. */
module Screen {
  import opened Words
  import opened Arithmetic

  datatype Rgb = Rgb(r: Byte, g: Byte, b: Byte)

  /** Resolution in pixels and bytes per pixel. */
  datatype Geometry = Geometry(x: nat, y: nat, bytesPerPixel: nat)
  {
    function Bytes(): nat { x * y * bytesPerPixel }

    function Width(): nat { x / 8 }

    function Height(): nat { y / 16 }
  }

  // ---------------------------------------------------------------- pixels

  /** The first byte of pixel (px, py). */
  function PixelByte(g: Geometry, px: nat, py: nat): nat {
    (g.x * py + px) * g.bytesPerPixel
  }

  /** A pixel of the screen lies inside the video memory of the mode. */
  lemma PixelInside(g: Geometry, px: nat, py: nat)
    requires px < g.x && py < g.y && g.bytesPerPixel >= 3
    ensures PixelByte(g, px, py) + 3 <= PixelByte(g, px, py) + g.bytesPerPixel <= g.Bytes()
  {
    var index, n := g.x * py + px, g.x * g.y;
    assert g.x * py + g.x == g.x * (py + 1);
    LessEq(py + 1, g.y, g.x);
    assert index + 1 <= n;
    LessEq(index + 1, n, g.bytesPerPixel);
    assert (index + 1) * g.bytesPerPixel == index * g.bytesPerPixel + g.bytesPerPixel;
  }

  /** Different pixels do not share bytes. */
  lemma PixelsApart(g: Geometry, px: nat, py: nat, qx: nat, qy: nat)
    requires px < g.x && qx < g.x && (px != qx || py != qy) && g.bytesPerPixel >= 3
    ensures PixelByte(g, px, py) + 3 <= PixelByte(g, qx, qy) || PixelByte(g, qx, qy) + 3 <= PixelByte(g, px, py)
  {
    if py < qy || (py == qy && px < qx) {
      PixelBefore(g, px, py, qx, qy);
    } else {
      PixelBefore(g, qx, qy, px, py);
    }
  }

  lemma PixelBefore(g: Geometry, px: nat, py: nat, qx: nat, qy: nat)
    requires px < g.x && qx < g.x && (py < qy || (py == qy && px < qx)) && g.bytesPerPixel >= 3
    ensures PixelByte(g, px, py) + 3 <= PixelByte(g, qx, qy)
  {
    var i, j := g.x * py + px, g.x * qy + qx;
    if py < qy {
      assert g.x * (py + 1) == g.x * py + g.x;
      LessEq(py + 1, qy, g.x);
    }
    assert i + 1 <= j;
    LessEq(i + 1, j, g.bytesPerPixel);
    assert (i + 1) * g.bytesPerPixel == i * g.bytesPerPixel + g.bytesPerPixel;
  }

  function PixelAt(m: seq<Byte>, at: nat): Rgb
    requires at + 3 <= |m|
  {
    Rgb(m[at + 2], m[at + 1], m[at])
  }

  function SetPixel(m: seq<Byte>, at: nat, c: Rgb): (r: seq<Byte>)
    requires at + 3 <= |m|
    ensures |r| == |m| && PixelAt(r, at) == c
    ensures forall i :: 0 <= i < |m| && !(at <= i < at + 3) ==> r[i] == m[i]
  {
    m[at := c.b][at + 1 := c.g][at + 2 := c.r]
  }

  /** Where the display fetches pixel (px, py): scan lines lie `pitch` bytes apart, the mode
      information block's bytesPerScanLine, which the kernel does not read. */
  function ScanLineByte(g: Geometry, pitch: nat, px: nat, py: nat): nat {
    pitch * py + px * g.bytesPerPixel
  }

  /** After draw_pixel on memory m the display shows colour c at (px, py). */
  ghost predicate ShownWhereDrawn(m: seq<Byte>, g: Geometry, pitch: nat, px: nat, py: nat, c: Rgb) {
    PixelByte(g, px, py) + 3 <= |m| ==>
      && ScanLineByte(g, pitch, px, py) + 3 <= |m|
      && PixelAt(SetPixel(m, PixelByte(g, px, py), c), ScanLineByte(g, pitch, px, py)) == c
  }

  /** Pixels show where they are drawn, on every screen of two lines or more, exactly when the
      scan lines follow one another without a gap. */
  lemma PitchExactly(g: Geometry, pitch: nat, size: nat)
    requires g.x > 0 && g.y > 1 && g.bytesPerPixel >= 3 && g.Bytes() <= size
    ensures pitch == g.x * g.bytesPerPixel <==>
      forall m: seq<Byte>, px: nat, py: nat, c: Rgb :: |m| == size && px < g.x && py < g.y ==>
        ShownWhereDrawn(m, g, pitch, px, py, c)
  {
    if pitch == g.x * g.bytesPerPixel {
      forall px: nat, py: nat ensures ScanLineByte(g, pitch, px, py) == PixelByte(g, px, py) {
        GaplessLines(g.x, py, px, g.bytesPerPixel);
      }
    } else {
      var m: seq<Byte> := seq(size, i => 0);
      PixelInside(g, 0, 1);
      assert !ShownWhereDrawn(m, g, pitch, 0, 1, Rgb(1, 2, 3)) by {
        assert PixelByte(g, 0, 1) == g.x * g.bytesPerPixel && ScanLineByte(g, pitch, 0, 1) == pitch;
      }
    }
  }

  lemma GaplessLines(x: nat, py: nat, px: nat, b: nat)
    ensures (x * py + px) * b == x * b * py + px * b
  {
    assert (x * py + px) * b == (x * py) * b + px * b;
  }

  // ---------------------------------------------------------------- glyphs

  /** Is dot j, from the left, of a glyph row set? */
  predicate Dot(data: bv8, j: nat)
    requires j < 8
  {
    (data >> (7 - j)) & 1 == 1
  }

  /** The j-fold left shift of a row, as the drawing loop keeps it in a byte. */
  function Shifted(data: bv8, j: nat): bv8 {
    if j == 0 then data else Shifted(data, j - 1) << 1
  }

  /** The top bit of the shifted row is the dot. */
  lemma ShiftShowsDot(data: bv8, j: nat)
    requires j < 8
    ensures Shifted(data, j) & 0x80 != 0 <==> Dot(data, j)
  {
    ShiftedClosed(data, j);
    if j == 0 {
    } else if j == 1 {
    } else if j == 2 {
    } else if j == 3 {
    } else if j == 4 {
    } else if j == 5 {
    } else if j == 6 {
    } else {
      assert j == 7;
    }
  }

  lemma {:induction false} ShiftedClosed(data: bv8, j: nat)
    requires j < 8
    ensures Shifted(data, j) == data << j
  {
    if j > 0 {
      ShiftedClosed(data, j - 1);
      assert j == 1 || j == 2 || j == 3 || j == 4 || j == 5 || j == 6 || j == 7;
    }
  }

  /** 128 glyphs of 16 rows. */
  type Font = f: seq<bv8> | |f| == 2048 witness seq(2048, (i: nat) => 0 as bv8)

  /** Foreground and background. */
  datatype Ink = Ink(fore: Rgb, back: Rgb)

  /** The colour of dot (i, j) of a character. */
  function DotColour(font: Font, ch: nat, ink: Ink, i: nat, j: nat): Rgb
    requires ch < 128 && i < 16 && j < 8
  {
    if Dot(font[16 * ch + i], j) then ink.fore else ink.back
  }

  predicate CellOnScreen(g: Geometry, left: nat, top: nat) {
    left + 8 <= g.x && top + 16 <= g.y && g.bytesPerPixel >= 3
  }

  /** Video memory after the first j dots of row i of a character with its corner at (left, top). */
  function RowDrawn(m: seq<Byte>, g: Geometry, font: Font, ch: nat, left: nat, top: nat, ink: Ink,
      i: nat, j: nat): (r: seq<Byte>)
    requires ch < 128 && CellOnScreen(g, left, top) && g.Bytes() <= |m| && i < 16 && j <= 8
    ensures |r| == |m|
  {
    if j == 0 then m
    else
      PixelInside(g, left + (j - 1), top + i);
      SetPixel(RowDrawn(m, g, font, ch, left, top, ink, i, j - 1), PixelByte(g, left + (j - 1), top + i),
               DotColour(font, ch, ink, i, j - 1))
  }

  /** Video memory after the first n rows. */
  function Drawn(m: seq<Byte>, g: Geometry, font: Font, ch: nat, left: nat, top: nat, ink: Ink, n: nat): (r: seq<Byte>)
    requires ch < 128 && CellOnScreen(g, left, top) && g.Bytes() <= |m| && n <= 16
    ensures |r| == |m|
  {
    if n == 0 then m
    else RowDrawn(Drawn(m, g, font, ch, left, top, ink, n - 1), g, font, ch, left, top, ink, n - 1, 8)
  }

  /** Setting one pixel of the screen changes that pixel only. */
  lemma OnePixelSet(m: seq<Byte>, g: Geometry, sx: nat, sy: nat, c: Rgb, px: nat, py: nat)
    requires g.bytesPerPixel >= 3 && g.Bytes() <= |m| && sx < g.x && sy < g.y && px < g.x && py < g.y
    ensures PixelByte(g, sx, sy) + 3 <= g.Bytes() && PixelByte(g, px, py) + 3 <= g.Bytes()
    ensures PixelAt(SetPixel(m, PixelByte(g, sx, sy), c), PixelByte(g, px, py)) ==
      if px == sx && py == sy then c else PixelAt(m, PixelByte(g, px, py))
  {
    PixelInside(g, px, py);
    PixelInside(g, sx, sy);
    if px != sx || py != sy {
      PixelsApart(g, px, py, sx, sy);
      OtherPixelKept(m, PixelByte(g, sx, sy), c, PixelByte(g, px, py));
    }
  }

  /** A row shows its dots and leaves every other pixel of the screen alone. */
  lemma {:induction false} RowPixel(m: seq<Byte>, g: Geometry, font: Font, ch: nat, left: nat, top: nat, ink: Ink,
      i: nat, j: nat, px: nat, py: nat)
    requires ch < 128 && CellOnScreen(g, left, top) && g.Bytes() <= |m| && i < 16 && j <= 8
    requires px < g.x && py < g.y
    ensures PixelByte(g, px, py) + 3 <= g.Bytes()
    ensures PixelAt(RowDrawn(m, g, font, ch, left, top, ink, i, j), PixelByte(g, px, py)) ==
      if py == top + i && left <= px < left + j then DotColour(font, ch, ink, i, px - left)
      else PixelAt(m, PixelByte(g, px, py))
  {
    PixelInside(g, px, py);
    if j > 0 {
      RowPixel(m, g, font, ch, left, top, ink, i, j - 1, px, py);
      OnePixelSet(RowDrawn(m, g, font, ch, left, top, ink, i, j - 1), g, left + (j - 1), top + i,
        DotColour(font, ch, ink, i, j - 1), px, py);
    }
  }

  /** Drawing shows the character in its cell and leaves every other pixel of the screen alone. */
  lemma {:induction false} DrawnPixel(m: seq<Byte>, g: Geometry, font: Font, ch: nat, left: nat, top: nat, ink: Ink,
      n: nat, px: nat, py: nat)
    requires ch < 128 && CellOnScreen(g, left, top) && g.Bytes() <= |m| && n <= 16
    requires px < g.x && py < g.y
    ensures PixelByte(g, px, py) + 3 <= g.Bytes()
    ensures PixelAt(Drawn(m, g, font, ch, left, top, ink, n), PixelByte(g, px, py)) ==
      if left <= px < left + 8 && top <= py < top + n then DotColour(font, ch, ink, py - top, px - left)
      else PixelAt(m, PixelByte(g, px, py))
  {
    PixelInside(g, px, py);
    if n > 0 {
      DrawnPixel(m, g, font, ch, left, top, ink, n - 1, px, py);
      RowPixel(Drawn(m, g, font, ch, left, top, ink, n - 1), g, font, ch, left, top, ink, n - 1, 8, px, py);
    }
  }

  lemma OtherPixelKept(m: seq<Byte>, at: nat, c: Rgb, other: nat)
    requires at + 3 <= |m| && other + 3 <= |m| && (at + 3 <= other || other + 3 <= at)
    ensures PixelAt(SetPixel(m, at, c), other) == PixelAt(m, other)
  {
  }

  /** Two memories agree past the first n bytes. */
  ghost predicate SamePast(m: seq<Byte>, m': seq<Byte>, n: nat) {
    |m| == |m'| && forall at :: n <= at < |m| ==> m'[at] == m[at]
  }

  /** No byte past the screen changes. */
  lemma {:induction false} RowInside(m: seq<Byte>, g: Geometry, font: Font, ch: nat, left: nat, top: nat, ink: Ink,
      i: nat, j: nat)
    requires ch < 128 && CellOnScreen(g, left, top) && g.Bytes() <= |m| && i < 16 && j <= 8
    ensures SamePast(m, RowDrawn(m, g, font, ch, left, top, ink, i, j), g.Bytes())
  {
    if j > 0 {
      RowInside(m, g, font, ch, left, top, ink, i, j - 1);
      PixelInside(g, left + (j - 1), top + i);
    }
  }

  lemma {:induction false} DrawnInside(m: seq<Byte>, g: Geometry, font: Font, ch: nat, left: nat, top: nat, ink: Ink,
      n: nat)
    requires ch < 128 && CellOnScreen(g, left, top) && g.Bytes() <= |m| && n <= 16
    ensures SamePast(m, Drawn(m, g, font, ch, left, top, ink, n), g.Bytes())
  {
    if n > 0 {
      DrawnInside(m, g, font, ch, left, top, ink, n - 1);
      RowInside(Drawn(m, g, font, ch, left, top, ink, n - 1), g, font, ch, left, top, ink, n - 1, 8);
    }
  }

  // ---------------------------------------------------------------- cursor

  datatype Cursor = Cursor(row: nat, col: nat)

  predicate InGrid(w: nat, h: nat, c: Cursor) { c.row < h && c.col < w }

  predicate Ordinary(ch: char) { ch != '\0' && ch != '\U{8}' && ch != '\n' && ch != '\r' && ch != '\t' }

  /** Where the cursor goes: the end of print_char wraps the last row onto itself. */
  function Advance(w: nat, h: nat, c: Cursor, ch: char): Cursor
    requires w > 0
  {
    if ch == '\0' then c
    else
      var moved :=
        if ch == '\U{8}' then (if c.col > 0 then c.(col := c.col - 1) else c)
        else if ch == '\n' then Cursor(c.row + 1, 0)
        else if ch == '\r' then c.(col := 0)
        else if ch == '\t' then Cursor(c.row + (c.col + 8) / w, (c.col + 8 - c.col % 8) % w)
        else Cursor(c.row + (c.col + 1) / w, (c.col + 1) % w);
      if moved.row == h && h > 0 then moved.(row := h - 1) else moved
  }

  function AdvanceAll(w: nat, h: nat, c: Cursor, text: string): Cursor
    requires w > 0
  {
    if text == "" then c else Advance(w, h, AdvanceAll(w, h, c, text[..|text| - 1]), text[|text| - 1])
  }

  lemma QuotientAtMostOne(x: nat, w: nat)
    requires w > 0 && x < 2 * w
    ensures x / w <= 1 && (x < w <==> x / w == 0)
  {
  }

  lemma AdvanceInGrid(w: nat, h: nat, c: Cursor, ch: char)
    requires w >= 8 && InGrid(w, h, c)
    ensures InGrid(w, h, Advance(w, h, c, ch))
  {
    QuotientAtMostOne(c.col + 8, w);
    QuotientAtMostOne(c.col + 1, w);
  }

  /** The cursor stays in the grid for every text. */
  lemma {:induction false} TextStaysInGrid(w: nat, h: nat, c: Cursor, text: string)
    requires w >= 8 && InGrid(w, h, c)
    ensures InGrid(w, h, AdvanceAll(w, h, c, text))
  {
    if text != "" {
      TextStaysInGrid(w, h, c, text[..|text| - 1]);
      AdvanceInGrid(w, h, AdvanceAll(w, h, c, text[..|text| - 1]), text[|text| - 1]);
    }
  }

  /** A tab in a narrower console can skip the last row: eight columns are exactly what the
      cursor needs. */
  lemma GridKeptExactly(w: nat, h: nat)
    requires w > 0 && h > 0
    ensures (forall c: Cursor, ch: char :: InGrid(w, h, c) ==> InGrid(w, h, Advance(w, h, c, ch))) <==> w >= 8
  {
    if w >= 8 {
      forall c: Cursor, ch: char | InGrid(w, h, c) ensures InGrid(w, h, Advance(w, h, c, ch)) {
        AdvanceInGrid(w, h, c, ch);
      }
    } else {
      var c := Cursor(h - 1, w - 1);
      assert (w - 1 + 8) / w >= 2 by { TwoLines(w); }
      assert !InGrid(w, h, Advance(w, h, c, '\t'));
    }
  }

  lemma TwoLines(w: nat)
    requires 0 < w < 8
    ensures (w - 1 + 8) / w >= 2
  {
  }

  function Min(a: nat, b: nat): nat { if a < b then a else b }

  /** Ordinary text in closed form. */
  lemma {:induction false} OrdinaryTextLayout(w: nat, h: nat, c: Cursor, text: string)
    requires w > 0 && InGrid(w, h, c)
    requires forall i :: 0 <= i < |text| ==> Ordinary(text[i])
    ensures AdvanceAll(w, h, c, text) ==
      Cursor(Min(h - 1, c.row + (c.col + |text|) / w), (c.col + |text|) % w)
  {
    if text == "" {
      QuotientAtMostOne(c.col, w);
      SmallMod(c.col, w);
    } else {
      var x := c.col + (|text| - 1);
      OrdinaryTextLayout(w, h, c, text[..|text| - 1]);
      OrdinaryStep(w, h, c.row, x, text[|text| - 1]);
    }
  }

  /** The step from x columns on to x + 1. */
  lemma OrdinaryStep(w: nat, h: nat, row: nat, x: nat, ch: char)
    requires w > 0 && row < h && Ordinary(ch)
    ensures Advance(w, h, Cursor(Min(h - 1, row + x / w), x % w), ch)
      == Cursor(Min(h - 1, row + (x + 1) / w), (x + 1) % w)
  {
    NextColumn(x, w);
    QuotientAtMostOne(x % w + 1, w);
  }

  lemma SmallMod(x: nat, w: nat)
    requires x < w
    ensures x % w == x
  {
  }

  lemma NextColumn(x: nat, w: nat)
    requires w > 0
    ensures (x + 1) / w == x / w + (x % w + 1) / w && (x + 1) % w == (x % w + 1) % w
  {
    var q, r := x / w, x % w;
    assert x + 1 == w * q + (r + 1);
    if r + 1 == w {
      assert x + 1 == w * (q + 1) + 0;
      DivModUnique(x + 1, w, q + 1, 0);
      DivModUnique(r + 1, w, 1, 0);
    } else {
      DivModUnique(x + 1, w, q, r + 1);
      DivModUnique(r + 1, w, 0, r + 1);
    }
  }

  // ---------------------------------------------------------------- lines

  /** Where the control characters other than tab move the cursor. */
  lemma ControlMoves(w: nat, h: nat, c: Cursor)
    requires w > 0 && InGrid(w, h, c)
    ensures Advance(w, h, c, '\n') == Cursor(Min(h - 1, c.row + 1), 0)
    ensures Advance(w, h, c, '\r') == Cursor(c.row, 0)
    ensures Advance(w, h, c, '\U{8}') == Cursor(c.row, if c.col == 0 then 0 else c.col - 1)
    ensures Advance(w, h, c, '\0') == c
  {
  }

  lemma {:induction false} AdvanceConcat(w: nat, h: nat, c: Cursor, a: string, b: string)
    requires w > 0
    ensures AdvanceAll(w, h, c, a + b) == AdvanceAll(w, h, AdvanceAll(w, h, c, a), b)
    decreases |b|
  {
    if b == "" {
      assert a + b == a;
    } else {
      AdvanceConcat(w, h, c, a, b[..|b| - 1]);
      assert (a + b)[..|a + b| - 1] == a + b[..|b| - 1];
    }
  }

  /** Lines of text, with a newline between two. */
  function Lines(lines: seq<string>): string
    requires lines != []
  {
    if |lines| == 1 then lines[0] else lines[0] + "\n" + Lines(lines[1..])
  }

  /** How far down they go from column col: the wraps of each line, and the newlines. */
  function RowsDown(w: nat, col: nat, lines: seq<string>): nat
    requires w > 0 && lines != []
  {
    (col + |lines[0]|) / w + if |lines| == 1 then 0 else 1 + RowsDown(w, 0, lines[1..])
  }

  /** Text with newlines in closed form: the row is the old one plus wraps and newlines, up to the
      last row; the column counts from the last newline on. */
  lemma {:induction false} LinesLayout(w: nat, h: nat, c: Cursor, lines: seq<string>)
    requires w > 0 && InGrid(w, h, c) && lines != []
    requires forall k, i :: 0 <= k < |lines| && 0 <= i < |lines[k]| ==> Ordinary(lines[k][i])
    ensures AdvanceAll(w, h, c, Lines(lines)) ==
      Cursor(Min(h - 1, c.row + RowsDown(w, c.col, lines)),
             (if |lines| == 1 then c.col + |lines[0]| else |lines[|lines| - 1]|) % w)
    decreases |lines|
  {
    var first := lines[0];
    OrdinaryTextLayout(w, h, c, first);
    if |lines| > 1 {
      var rest := lines[1..];
      var next := Cursor(Min(h - 1, c.row + (c.col + |first|) / w + 1), 0);
      NextLine(w, h, c, first);
      assert rest[|rest| - 1] == lines[|lines| - 1];
      LinesLayout(w, h, next, rest);
      AdvanceConcat(w, h, c, first + "\n", Lines(rest));
      if |rest| == 1 { assert 0 + |rest[0]| == |lines[|lines| - 1]|; }
    }
  }

  lemma NextLine(w: nat, h: nat, c: Cursor, line: string)
    requires w > 0 && InGrid(w, h, c) && forall i :: 0 <= i < |line| ==> Ordinary(line[i])
    ensures AdvanceAll(w, h, c, line + "\n") == Cursor(Min(h - 1, c.row + (c.col + |line|) / w + 1), 0)
  {
    OrdinaryTextLayout(w, h, c, line);
    var text := line + "\n";
    assert text[..|text| - 1] == line && text[|text| - 1] == '\n';
  }

  // ---------------------------------------------------------------- tabs

  /** When the width is a multiple of 8, a tab goes to the next 8-column stop, and row and
      column wrap together. */
  lemma TabStop(w: nat, h: nat, c: Cursor)
    requires w >= 8 && w % 8 == 0 && InGrid(w, h, c)
    ensures var stop := 8 * (c.col / 8 + 1);
      Advance(w, h, c, '\t') ==
        if stop < w then Cursor(c.row, stop) else Cursor(Min(h - 1, c.row + 1), 0)
  {
    var stop := 8 * (c.col / 8 + 1);
    assert c.col + 8 - c.col % 8 == stop;
    assert stop <= w;
    QuotientAtMostOne(c.col + 8, w);
    if stop < w {
      SmallMod(stop, w);
    } else {
      DivModUnique(w, w, 1, 0);
    }
  }

  predicate TabWrapsRow(w: nat, col: nat) requires w > 0 { (col + 8) / w == 1 }

  predicate TabWrapsColumn(w: nat, col: nat) { col + 8 - col % 8 >= w }

  /** Row and column of a tab wrap together everywhere exactly for those widths. */
  lemma TabWrapsTogetherExactly(w: nat)
    requires w >= 8
    ensures (forall col: nat :: col < w ==> (TabWrapsRow(w, col) <==> TabWrapsColumn(w, col))) <==> w % 8 == 0
  {
    forall col: nat | col < w ensures TabWrapsRow(w, col) <==> col + 8 >= w {
      QuotientAtMostOne(col + 8, w);
    }
    if w % 8 != 0 {
      assert TabWrapsRow(w, w - 8) && !TabWrapsColumn(w, w - 8);
    }
  }
}
