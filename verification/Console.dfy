/** The text console on the framebuffer: print_char, toggle_cursor and the pixels they write. */
module Console {
  import opened Words
  import opened Screen
  import V = VideoMode

  const SPACE: nat := 0x20
  const BAR: nat := 0x7c

  function CellDrawn(m: seq<Byte>, g: Geometry, font: Font, ch: nat, c: Cursor, ink: Ink): (r: seq<Byte>)
    requires ch < 128 && InGrid(g.Width(), g.Height(), c) && g.bytesPerPixel >= 3 && g.Bytes() <= |m|
    ensures |r| == |m|
  {
    Drawn(m, g, font, ch, 8 * c.col, 16 * c.row, ink, 16)
  }

  /** Video memory after print_char. */
  function AfterChar(m: seq<Byte>, g: Geometry, font: Font, c: Cursor, ch: char, ink: Ink): (r: seq<Byte>)
    requires ch as nat < 128 && InGrid(g.Width(), g.Height(), c) && g.bytesPerPixel >= 3 && g.Bytes() <= |m|
    ensures |r| == |m|
  {
    if ch == '\0' then m
    else
      var cleared := CellDrawn(m, g, font, SPACE, c, ink);
      if ch == '\U{8}' && c.col > 0 then CellDrawn(cleared, g, font, SPACE, Cursor(c.row, c.col - 1), ink)
      else if Ordinary(ch) then CellDrawn(cleared, g, font, ch as nat, c, ink)
      else cleared
  }

  predicate InCell(c: Cursor, px: nat, py: nat) { px / 8 == c.col && py / 16 == c.row }

  /** What a pixel shows after a character cell was drawn. */
  lemma CellPixel(m: seq<Byte>, g: Geometry, font: Font, ch: nat, c: Cursor, ink: Ink, px: nat, py: nat)
    requires ch < 128 && InGrid(g.Width(), g.Height(), c) && g.bytesPerPixel >= 3 && g.Bytes() <= |m|
    requires px < g.x && py < g.y
    ensures PixelByte(g, px, py) + 3 <= g.Bytes()
    ensures PixelAt(CellDrawn(m, g, font, ch, c, ink), PixelByte(g, px, py)) ==
      if InCell(c, px, py) then DotColour(font, ch, ink, py % 16, px % 8) else PixelAt(m, PixelByte(g, px, py))
  {
    DrawnPixel(m, g, font, ch, 8 * c.col, 16 * c.row, ink, 16, px, py);
    CellDots(c, px, py);
  }

  lemma CellDots(c: Cursor, px: nat, py: nat)
    ensures 8 * c.col <= px < 8 * c.col + 8 && 16 * c.row <= py < 16 * c.row + 16 <==> InCell(c, px, py)
    ensures InCell(c, px, py) ==> px - 8 * c.col == px % 8 && py - 16 * c.row == py % 16
  {
  }

  /** An ordinary character appears in the cursor's cell, and no other cell changes. */
  lemma OrdinaryCharShown(m: seq<Byte>, g: Geometry, font: Font, c: Cursor, ch: char, ink: Ink, px: nat, py: nat)
    requires ch as nat < 128 && Ordinary(ch)
    requires InGrid(g.Width(), g.Height(), c) && g.bytesPerPixel >= 3 && g.Bytes() <= |m|
    requires px < g.x && py < g.y
    ensures PixelByte(g, px, py) + 3 <= g.Bytes()
    ensures PixelAt(AfterChar(m, g, font, c, ch, ink), PixelByte(g, px, py)) ==
      if InCell(c, px, py) then DotColour(font, ch as nat, ink, py % 16, px % 8) else PixelAt(m, PixelByte(g, px, py))
  {
    CellPixel(m, g, font, SPACE, c, ink, px, py);
    CellPixel(CellDrawn(m, g, font, SPACE, c, ink), g, font, ch as nat, c, ink, px, py);
  }

  /** Pixel (px, py) after glyph `code` was drawn at (col, row) over memory m, in bits of the font
      and bytes of memory: the cell is 8 pixels wide and 16 high, a set bit shows the foreground,
      and a pixel's bytes are blue, green and red. */
  predicate GlyphByte(m: seq<Byte>, m': seq<Byte>, g: Geometry, font: Font, row: nat, col: nat, code: nat, ink: Ink,
      px: nat, py: nat)
    requires code < 128
  {
    var at := (g.x * py + px) * g.bytesPerPixel;
    && at + 3 <= |m| == |m'|
    && if 8 * col <= px < 8 * col + 8 && 16 * row <= py < 16 * row + 16 then
         var bit := (font[16 * code + (py - 16 * row)] >> (7 - (px - 8 * col))) & 1;
         var colour := if bit == 1 then ink.fore else ink.back;
         m'[at] == colour.b && m'[at + 1] == colour.g && m'[at + 2] == colour.r
       else
         m'[at] == m[at] && m'[at + 1] == m[at + 1] && m'[at + 2] == m[at + 2]
  }

  lemma OrdinaryCharBytes(m: seq<Byte>, g: Geometry, font: Font, c: Cursor, ch: char, ink: Ink, px: nat, py: nat)
    requires ch as nat < 128 && Ordinary(ch)
    requires InGrid(g.Width(), g.Height(), c) && g.bytesPerPixel >= 3 && g.Bytes() <= |m|
    requires px < g.x && py < g.y
    ensures GlyphByte(m, AfterChar(m, g, font, c, ch, ink), g, font, c.row, c.col, ch as nat, ink, px, py)
  {
    OrdinaryCharShown(m, g, font, c, ch, ink, px, py);
    CellDots(c, px, py);
  }

  /** On a display without gaps between scan lines, this is what the user sees. */
  lemma OrdinaryCharSeen(m: seq<Byte>, g: Geometry, pitch: nat, font: Font, c: Cursor, ch: char, ink: Ink,
      px: nat, py: nat)
    requires ch as nat < 128 && Ordinary(ch) && pitch == g.x * g.bytesPerPixel
    requires InGrid(g.Width(), g.Height(), c) && g.bytesPerPixel >= 3 && g.Bytes() <= |m|
    requires px < g.x && py < g.y
    ensures ScanLineByte(g, pitch, px, py) + 3 <= g.Bytes()
    ensures PixelAt(AfterChar(m, g, font, c, ch, ink), ScanLineByte(g, pitch, px, py)) ==
      if InCell(c, px, py) then DotColour(font, ch as nat, ink, py % 16, px % 8)
      else PixelAt(m, ScanLineByte(g, pitch, px, py))
  {
    GaplessLines(g.x, py, px, g.bytesPerPixel);
    OrdinaryCharShown(m, g, font, c, ch, ink, px, py);
  }

  /** A control character writes spaces to the cursor's cell and, for a backspace, to the one
      before it; no other cell changes. */
  lemma ControlCharShown(m: seq<Byte>, g: Geometry, font: Font, c: Cursor, ch: char, ink: Ink, px: nat, py: nat)
    requires ch as nat < 128 && !Ordinary(ch) && ch != '\0'
    requires InGrid(g.Width(), g.Height(), c) && g.bytesPerPixel >= 3 && g.Bytes() <= |m|
    requires px < g.x && py < g.y
    ensures PixelByte(g, px, py) + 3 <= g.Bytes()
    ensures PixelAt(AfterChar(m, g, font, c, ch, ink), PixelByte(g, px, py)) ==
      if InCell(c, px, py) || (ch == '\U{8}' && c.col > 0 && InCell(Cursor(c.row, c.col - 1), px, py))
      then DotColour(font, SPACE, ink, py % 16, px % 8) else PixelAt(m, PixelByte(g, px, py))
  {
    CellPixel(m, g, font, SPACE, c, ink, px, py);
    if ch == '\U{8}' && c.col > 0 {
      CellPixel(CellDrawn(m, g, font, SPACE, c, ink), g, font, SPACE, Cursor(c.row, c.col - 1), ink, px, py);
    }
  }

  /** No byte past the screen changes. */
  lemma CharInside(m: seq<Byte>, g: Geometry, font: Font, c: Cursor, ch: char, ink: Ink)
    requires ch as nat < 128 && InGrid(g.Width(), g.Height(), c) && g.bytesPerPixel >= 3 && g.Bytes() <= |m|
    ensures SamePast(m, AfterChar(m, g, font, c, ch, ink), g.Bytes())
  {
    var cleared := CellDrawn(m, g, font, SPACE, c, ink);
    DrawnInside(m, g, font, SPACE, 8 * c.col, 16 * c.row, ink, 16);
    if ch == '\U{8}' && c.col > 0 {
      DrawnInside(cleared, g, font, SPACE, 8 * (c.col - 1), 16 * c.row, ink, 16);
    } else if Ordinary(ch) {
      DrawnInside(cleared, g, font, ch as nat, 8 * c.col, 16 * c.row, ink, 16);
    }
  }

  class Console {
    const vram: array<Byte> // the 8 MiB window
    const g: Geometry
    const font: Font
    const fontInk: Ink
    const cursorInk: Ink
    var row: nat
    var col: nat
    var cursorState: bool
    const consoleWidth: nat
    const consoleHeight: nat

    ghost predicate Valid()
      reads this
    {
      && vram.Length == V.MAX_VRAM_SIZE && g.Bytes() <= vram.Length && g.bytesPerPixel >= 3
      && consoleWidth == g.Width() && consoleHeight == g.Height()
      && consoleWidth >= 8 && InGrid(consoleWidth, consoleHeight, Position())
    }

    function Position(): Cursor
      reads this
    {
      Cursor(row, col)
    }

    /** console_init, on the information block of the mode the loader has set. The filter also
        lets smaller screens pass, on which the console has no grid to work with. */
    constructor (info: V.ModeInfo, vram: array<Byte>, font: Font, fontInk: Ink, cursorInk: Ink)
      requires V.Fits(info) && vram.Length == V.MAX_VRAM_SIZE
      ensures Valid() <==> info.x >= 64 && info.y >= 16
      ensures g.Bytes() <= V.MAX_VRAM_SIZE && consoleWidth == g.Width() && consoleHeight == g.Height()
      ensures Position() == Cursor(0, 0) && !cursorState && this.vram == vram && this.font == font
      ensures g == Geometry(info.x, info.y, info.bitsPerPixel / 8)
    {
      V.FitsWindow(info);
      this.vram := vram;
      this.font := font;
      this.fontInk := fontInk;
      this.cursorInk := cursorInk;
      g := Geometry(info.x, info.y, info.bitsPerPixel / 8);
      consoleWidth := info.x / 8;
      consoleHeight := info.y / 16;
      row, col, cursorState := 0, 0, false;
    }

    /** draw_pixel */
    method DrawPixel(px: nat, py: nat, c: Rgb)
      requires Valid() && px < g.x && py < g.y
      modifies vram
      ensures PixelByte(g, px, py) + 3 <= g.Bytes()
      ensures vram[..] == SetPixel(old(vram[..]), PixelByte(g, px, py), c)
      ensures var at := (g.x * py + px) * g.bytesPerPixel;
        vram[..] == old(vram[..])[at := c.b][at + 1 := c.g][at + 2 := c.r]
    {
      PixelInside(g, px, py);
      var pixelAddr := (g.x * py + px) * g.bytesPerPixel;
      vram[pixelAddr] := c.b;
      vram[pixelAddr + 1] := c.g;
      vram[pixelAddr + 2] := c.r;
    }

    /** _draw_font */
    method DrawFont(ch: nat, c: Cursor, ink: Ink)
      requires Valid() && ch < 128 && InGrid(consoleWidth, consoleHeight, c)
      modifies vram
      ensures vram[..] == CellDrawn(old(vram[..]), g, font, ch, c, ink)
    {
      ghost var m0 := vram[..];
      for i := 0 to 16
        invariant vram[..] == Drawn(m0, g, font, ch, 8 * c.col, 16 * c.row, ink, i)
      {
        DrawRow(ch, 8 * c.col, 16 * c.row, ink, i);
      }
    }

    /** The inner loop of _draw_font: row i of the character. */
    method DrawRow(ch: nat, left: nat, top: nat, ink: Ink, i: nat)
      requires Valid() && ch < 128 && CellOnScreen(g, left, top) && i < 16
      modifies vram
      ensures vram[..] == RowDrawn(old(vram[..]), g, font, ch, left, top, ink, i, 8)
    {
      ghost var m0 := vram[..];
      var data := font[ch * 16 + i];
      for j := 0 to 8
        invariant data == Shifted(font[16 * ch + i], j)
        invariant vram[..] == RowDrawn(m0, g, font, ch, left, top, ink, i, j)
      {
        DrawDot(ch, left, top, ink, i, j, data);
        data := data << 1;
      }
    }

    /** Dot j of row i, on the top bit of the shifted row. */
    method DrawDot(ghost ch: nat, left: nat, top: nat, ink: Ink, i: nat, j: nat, data: bv8)
      requires Valid() && ch < 128 && CellOnScreen(g, left, top) && i < 16 && j < 8
      requires data == Shifted(font[16 * ch + i], j)
      modifies vram
      ensures PixelByte(g, left + j, top + i) + 3 <= g.Bytes()
      ensures vram[..] == SetPixel(old(vram[..]), PixelByte(g, left + j, top + i), DotColour(font, ch, ink, i, j))
    {
      ShiftShowsDot(font[16 * ch + i], j);
      if (data & 0x80) != 0 {
        DrawPixel(left + j, top + i, ink.fore);
      } else {
        DrawPixel(left + j, top + i, ink.back);
      }
    }

    /** print_char */
    method PrintChar(ch: char)
      requires Valid() && ch as nat < 128
      modifies this`row, this`col, vram
      ensures Valid() && Position() == Advance(consoleWidth, consoleHeight, old(Position()), ch)
      ensures vram[..] == AfterChar(old(vram[..]), g, font, old(Position()), ch, fontInk)
      ensures ch == '\n' ==> row == (if old(row) + 1 < consoleHeight then old(row) + 1 else old(row)) && col == 0
      ensures ch == '\r' ==> row == old(row) && col == 0
      ensures ch == '\U{8}' ==> row == old(row) && col == if old(col) == 0 then 0 else old(col) - 1
      ensures ch == '\0' ==> row == old(row) && col == old(col)
    {
      AdvanceInGrid(consoleWidth, consoleHeight, Position(), ch);
      if ch == '\0' {
        return;
      }
      DrawFont(SPACE, Position(), fontInk);
      match ch {
        case '\U{8}' =>
          if col > 0 {
            col := col - 1;
            DrawFont(SPACE, Position(), fontInk);
          }
        case '\n' =>
          row := row + 1;
          col := 0;
        case '\r' =>
          col := 0;
        case '\t' =>
          row := row + (col + 8) / consoleWidth;
          col := (col + 8 - col % 8) % consoleWidth;
        case _ =>
          DrawFont(ch as nat, Position(), fontInk);
          row := row + (col + 1) / consoleWidth;
          col := (col + 1) % consoleWidth;
      }
      if row == consoleHeight {
        row := row - 1;
      }
    }

    /** A whole text: the cursor follows the layout, and nothing past the screen is written. */
    method PrintText(text: string)
      requires Valid() && forall i :: 0 <= i < |text| ==> text[i] as nat < 128
      modifies this`row, this`col, vram
      ensures Valid() && Position() == AdvanceAll(consoleWidth, consoleHeight, old(Position()), text)
      ensures SamePast(old(vram[..]), vram[..], g.Bytes())
    {
      ghost var start := Position();
      for i := 0 to |text|
        invariant Valid() && Position() == AdvanceAll(consoleWidth, consoleHeight, start, text[..i])
        invariant SamePast(old(vram[..]), vram[..], g.Bytes())
      {
        CharInside(vram[..], g, font, Position(), text[i], fontInk);
        PrintChar(text[i]);
        assert text[..i + 1][..i] == text[..i];
      }
      assert text[..|text|] == text;
    }

    /** toggle_cursor */
    method ToggleCursor()
      requires Valid()
      modifies this`cursorState, vram
      ensures Valid() && cursorState == !old(cursorState)
      ensures vram[..] == CellDrawn(old(vram[..]), g, font, if old(cursorState) then SPACE else BAR, Position(),
        if old(cursorState) then fontInk else cursorInk)
    {
      if cursorState {
        DrawFont(SPACE, Position(), fontInk);
      } else {
        DrawFont(BAR, Position(), cursorInk);
      }
      cursorState := !cursorState;
    }
  }
}
