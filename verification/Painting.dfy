/** Drawing into a flat frame buffer: rectangles, borders and text in a 5 by 7 font. */
module Painting {
  import opened Basics

  const U32_MAX := 0xFFFF_FFFF
  const GLYPH_WIDTH := 5
  const GLYPH_HEIGHT := 7

  datatype Color = Color(red: Byte, green: Byte, blue: Byte)

  /** The bytes of a pixel, blue first. */
  function Channel(color: Color, i: nat): Byte {
    if i == 0 then color.blue else if i == 1 then color.green else if i == 2 then color.red else 0
  }

  // ---- The font

  function Uppercase(c: char): char {
    if 'a' <= c <= 'z' then (c as int - 32) as char else c
  }

  /** The rows of a character, five bits each, the leftmost pixel in the highest. */
  function Glyph(c: char): (rows: seq<nat>)
    ensures |rows| == GLYPH_HEIGHT
  {
    var u := Uppercase(c);
    if u == 'A' then [14, 17, 17, 31, 17, 17, 17]
    else if u == 'B' then [30, 17, 17, 30, 17, 17, 30]
    else if u == 'C' then [15, 16, 16, 16, 16, 16, 15]
    else if u == 'D' then [30, 17, 17, 17, 17, 17, 30]
    else if u == 'E' then [31, 16, 16, 30, 16, 16, 31]
    else if u == 'F' then [31, 16, 16, 30, 16, 16, 16]
    else if u == 'G' then [15, 16, 16, 19, 17, 17, 15]
    else if u == 'H' then [17, 17, 17, 31, 17, 17, 17]
    else if u == 'I' then [14, 4, 4, 4, 4, 4, 14]
    else if u == 'J' then [1, 1, 1, 1, 17, 17, 14]
    else if u == 'K' then [17, 18, 20, 24, 20, 18, 17]
    else if u == 'L' then [16, 16, 16, 16, 16, 16, 31]
    else if u == 'M' then [17, 27, 21, 21, 17, 17, 17]
    else if u == 'N' then [17, 17, 25, 21, 19, 17, 17]
    else if u == 'O' then [14, 17, 17, 17, 17, 17, 14]
    else if u == 'P' then [30, 17, 17, 30, 16, 16, 16]
    else if u == 'Q' then [14, 17, 17, 17, 21, 18, 13]
    else if u == 'R' then [30, 17, 17, 30, 20, 18, 17]
    else if u == 'S' then [15, 16, 16, 14, 1, 1, 30]
    else if u == 'T' then [31, 4, 4, 4, 4, 4, 4]
    else if u == 'U' then [17, 17, 17, 17, 17, 17, 14]
    else if u == 'V' then [17, 17, 17, 17, 17, 10, 4]
    else if u == 'W' then [17, 17, 17, 21, 21, 21, 10]
    else if u == 'X' then [17, 17, 10, 4, 10, 17, 17]
    else if u == 'Y' then [17, 17, 10, 4, 4, 4, 4]
    else if u == 'Z' then [31, 1, 2, 4, 8, 16, 31]
    else if u == '0' then [14, 19, 19, 21, 25, 25, 14]
    else if u == '1' then [4, 12, 4, 4, 4, 4, 14]
    else if u == '2' then [14, 17, 1, 2, 4, 8, 31]
    else if u == '3' then [31, 2, 4, 2, 1, 17, 14]
    else if u == '4' then [2, 6, 10, 18, 31, 2, 2]
    else if u == '5' then [31, 16, 30, 1, 1, 17, 14]
    else if u == '6' then [6, 8, 16, 30, 17, 17, 14]
    else if u == '7' then [31, 1, 2, 4, 8, 8, 8]
    else if u == '8' then [14, 17, 17, 14, 17, 17, 14]
    else if u == '9' then [14, 17, 17, 15, 1, 2, 12]
    else if u == ':' then [0, 4, 0, 0, 4, 0, 0]
    else if u == '.' then [0, 0, 0, 0, 0, 12, 12]
    else if u == '-' || u == '_' then [0, 0, 0, 31, 0, 0, 0]
    else if u == '*' then [0, 21, 14, 31, 14, 21, 0]
    else if u == '!' then [4, 4, 4, 4, 4, 0, 4]
    else [0, 0, 0, 0, 0, 0, 0]
  }

  /** Bit of a row: `(row >> (4 - column)) & 1`. */
  predicate RowBit(row: nat, column: nat)
    requires column < GLYPH_WIDTH
  {
    (row / [16, 8, 4, 2, 1][column]) % 2 == 1
  }

  /** The bits of a row from left to right are its binary digits. */
  lemma RowIsBinary(row: nat)
    requires row < 32
    ensures row == (if RowBit(row, 0) then 16 else 0) + (if RowBit(row, 1) then 8 else 0) + (if RowBit(row, 2) then 4 else 0)
                   + (if RowBit(row, 3) then 2 else 0) + (if RowBit(row, 4) then 1 else 0)
  {
  }

  /** The four bytes of a pixel, lowest first, are the number 0xRRGGBB. */
  lemma PixelIsRgb(color: Color)
    ensures Channel(color, 0) + 0x100 * Channel(color, 1) + 0x1_0000 * Channel(color, 2) + 0x100_0000 * Channel(color, 3)
            == 0x1_0000 * color.red as int + 0x100 * color.green as int + color.blue as int
  {
  }

  predicate GlyphBit(c: char, column: int, row: int) {
    0 <= column < GLYPH_WIDTH && 0 <= row < GLYPH_HEIGHT && RowBit(Glyph(c)[row], column)
  }

  lemma BitInGlyph(c: char, column: int, row: int)
    ensures GlyphBit(c, column, row) ==> 0 <= column < GLYPH_WIDTH && 0 <= row < GLYPH_HEIGHT
  {
  }

  // ---- What painting means

  type Shape = (int, int) -> bool

  /** Column, row and channel of a byte of the buffer. */
  function ColumnOf(pitch: nat, o: nat): nat
    requires pitch > 0
  {
    (o % pitch) / 4
  }

  function RowOf(pitch: nat, o: nat): nat
    requires pitch > 0
  {
    o / pitch
  }

  /** The frame fits the buffer, and every offset in it fits 32 bits. */
  predicate Frame(length: nat, pitch: nat, width: nat, height: nat) {
    0 < 4 * width <= pitch && pitch * height <= length <= U32_MAX
  }

  /** The pixels of the shape have the colour, and no other byte has changed. */
  ghost predicate Painted(before: seq<Byte>, after: seq<Byte>, pitch: nat, width: nat, color: Color, shape: Shape)
    requires pitch > 0
  {
    && |after| == |before|
    && (forall o: nat | o < |after| ::
          after[o] == if o % pitch < 4 * width && shape(ColumnOf(pitch, o), RowOf(pitch, o))
                      then Channel(color, (o % pitch) % 4)
                      else before[o])
  }

  lemma PaintedNothing(buf: seq<Byte>, pitch: nat, width: nat, color: Color, shape: Shape)
    requires pitch > 0 && forall c, r :: !shape(c, r)
    ensures Painted(buf, buf, pitch, width, color, shape)
  {
  }

  lemma PaintedUnion(a: seq<Byte>, b: seq<Byte>, c: seq<Byte>, pitch: nat, width: nat, color: Color, s: Shape,
          t: Shape, u: Shape)
    requires pitch > 0 && Painted(a, b, pitch, width, color, s) && Painted(b, c, pitch, width, color, t)
    requires forall x, y :: u(x, y) <==> s(x, y) || t(x, y)
    ensures Painted(a, c, pitch, width, color, u)
  {
    hide Channel;
  }

  lemma PaintedSame(a: seq<Byte>, b: seq<Byte>, pitch: nat, width: nat, color: Color, s: Shape, u: Shape)
    requires pitch > 0 && Painted(a, b, pitch, width, color, s) && forall x, y :: u(x, y) <==> s(x, y)
    ensures Painted(a, b, pitch, width, color, u)
  {
    hide Channel;
  }

  lemma {:induction false} Multiples(a: int, b: int, k: nat)
    ensures a < b ==> a * k + k <= b * k
    decreases k
  {
    if k > 0 {
      Multiples(a, b, k - 1);
      assert a * k == a * (k - 1) + a && b * k == b * (k - 1) + b;
    }
  }

  lemma DivMod(q: nat, pitch: nat, within: nat)
    requires within < pitch
    ensures (q * pitch + within) / pitch == q && (q * pitch + within) % pitch == within
  {
    var o := q * pitch + within;
    var d := o / pitch;
    assert o == d * pitch + o % pitch;
    Multiples(d, q, pitch);
    Multiples(q, d, pitch);
  }

  lemma RowsAbove(y: nat, height: nat, pitch: nat)
    requires y < height
    ensures y * pitch + pitch <= height * pitch
  {
    Multiples(y, height, pitch);
  }

  function PixelShape(x: nat, y: nat): Shape { (c, r) => c == x && r == y }

  /** The four bytes from the offset of a pixel on are that pixel. */
  lemma PixelBytes(pitch: nat, width: nat, x: nat, y: nat, o: nat)
    requires x < width && 4 * width <= pitch
    ensures y * pitch + x * 4 <= o < y * pitch + x * 4 + 4 <==>
              o % pitch < 4 * width && ColumnOf(pitch, o) == x && RowOf(pitch, o) == y
    ensures y * pitch + x * 4 <= o < y * pitch + x * 4 + 4 ==> (o % pitch) % 4 == o - (y * pitch + x * 4)
  {
    var offset := y * pitch + x * 4;
    if offset <= o < offset + 4 {
      DivMod(y, pitch, o - y * pitch);
    }
    if o / pitch == y {
      assert o == y * pitch + o % pitch;
    }
  }

  method PutPixel(buf: array<Byte>, pitch: nat, x: nat, y: nat, color: Color, ghost width: nat, ghost height: nat)
    requires Frame(buf.Length, pitch, width, height) && x < width && y < height
    modifies buf
    ensures Painted(old(buf[..]), buf[..], pitch, width, color, PixelShape(x, y))
  {
    RowsAbove(y, height, pitch);
    var offset := y * pitch + x * 4;
    assert offset <= U32_MAX;
    if offset + 4 <= buf.Length {
      buf[offset] := color.blue;
      buf[offset + 1] := color.green;
      buf[offset + 2] := color.red;
      buf[offset + 3] := 0;
    }
    forall o: nat | o < buf.Length
      ensures buf[o] == if o % pitch < 4 * width && PixelShape(x, y)(ColumnOf(pitch, o), RowOf(pitch, o))
                        then Channel(color, (o % pitch) % 4)
                        else old(buf[o])
    {
      PixelBytes(pitch, width, x, y, o);
    }
  }

  // ---- Rectangles

  function RectShape(x0: int, y0: int, w: int, h: int): Shape {
    (c, r) => x0 <= c < x0 + w && y0 <= r < y0 + h
  }

  /** The rows before y, and in row y the pixels before x. */
  function RectPart(x0: int, y0: int, w: int, x: int, y: int): Shape {
    (c, r) => x0 <= c < x0 + w && y0 <= r && (r < y || (r == y && c < x))
  }

  function SaturatingAdd(a: nat, b: nat): nat { if a + b > U32_MAX then U32_MAX else a + b }

  method FillRect(buf: array<Byte>, pitch: nat, x0: nat, y0: nat, w: nat, h: nat, color: Color, ghost width: nat,
          ghost height: nat)
    requires Frame(buf.Length, pitch, width, height) && x0 + w <= width && y0 + h <= height <= U32_MAX
    modifies buf
    ensures Painted(old(buf[..]), buf[..], pitch, width, color, RectShape(x0, y0, w, h))
  {
    hide Painted, Channel;
    ghost var before := buf[..];
    PaintedNothing(before, pitch, width, color, RectPart(x0, y0, w, x0, y0));
    var y := y0;
    while y < SaturatingAdd(y0, h)
      invariant y0 <= y <= y0 + h
      invariant Painted(before, buf[..], pitch, width, color, RectPart(x0, y0, w, x0, y))
    {
      var x := x0;
      while x < SaturatingAdd(x0, w)
        invariant x0 <= x <= x0 + w
        invariant Painted(before, buf[..], pitch, width, color, RectPart(x0, y0, w, x, y))
      {
        ghost var middle := buf[..];
        PutPixel(buf, pitch, x, y, color, width, height);
        PaintedUnion(before, middle, buf[..], pitch, width, color, RectPart(x0, y0, w, x, y), PixelShape(x, y),
                     RectPart(x0, y0, w, x + 1, y));
        x := x + 1;
      }
      PaintedSame(before, buf[..], pitch, width, color, RectPart(x0, y0, w, x, y), RectPart(x0, y0, w, x0, y + 1));
      y := y + 1;
    }
    PaintedSame(before, buf[..], pitch, width, color, RectPart(x0, y0, w, x0, y), RectShape(x0, y0, w, h));
  }

  /** The pixels of the rectangle that are less than `thickness` away from an edge. */
  function BorderShape(x0: int, y0: int, w: int, h: int, thickness: int): Shape {
    (c, r) =>
      && x0 <= c < x0 + w && y0 <= r < y0 + h
      && (c < x0 + thickness || x0 + w - thickness <= c || r < y0 + thickness || y0 + h - thickness <= r)
  }

  method DrawRectBorder(buf: array<Byte>, pitch: nat, x0: nat, y0: nat, w: nat, h: nat, thickness: nat, color: Color,
                        ghost width: nat, ghost height: nat)
    requires Frame(buf.Length, pitch, width, height) && x0 + w <= width && y0 + h <= height <= U32_MAX
    requires thickness <= w && thickness <= h
    modifies buf
    ensures Painted(old(buf[..]), buf[..], pitch, width, color, BorderShape(x0, y0, w, h, thickness))
  {
    hide Painted, Channel;
    ghost var start := buf[..];
    FillRect(buf, pitch, x0, y0, w, thickness, color, width, height);
    ghost var top := buf[..];
    FillRect(buf, pitch, x0, y0 + h - thickness, w, thickness, color, width, height);
    ghost var bottom := buf[..];
    FillRect(buf, pitch, x0, y0, thickness, h, color, width, height);
    ghost var left := buf[..];
    FillRect(buf, pitch, x0 + w - thickness, y0, thickness, h, color, width, height);
    ghost var s, t := RectShape(x0, y0, w, thickness), RectShape(x0, y0 + h - thickness, w, thickness);
    ghost var u, v := RectShape(x0, y0, thickness, h), RectShape(x0 + w - thickness, y0, thickness, h);
    ghost var st: Shape := (c, r) => s(c, r) || t(c, r);
    ghost var uv: Shape := (c, r) => u(c, r) || v(c, r);
    PaintedUnion(start, top, bottom, pitch, width, color, s, t, st);
    PaintedUnion(bottom, left, buf[..], pitch, width, color, u, v, uv);
    PaintedUnion(start, bottom, buf[..], pitch, width, color, st, uv, BorderShape(x0, y0, w, h, thickness));
  }

  // ---- Text

  /** The scaled set bits of a character. */
  function CharShape(c: char, x: int, y: int, scale: nat): Shape
    requires scale > 0
  {
    (column, row) => GlyphBit(c, (column - x) / scale, (row - y) / scale)
  }

  /** Of the bits before row and column. */
  function CharPart(c: char, x: int, y: int, scale: nat, column: int, row: int): Shape
    requires scale > 0
  {
    (col, r) =>
      && GlyphBit(c, (col - x) / scale, (r - y) / scale)
      && ((r - y) / scale < row || ((r - y) / scale == row && (col - x) / scale < column))
  }

  /** Character i of a text has the columns from i times the advance on. */
  function TextShape(text: string, x: int, y: int, scale: nat): Shape
    requires scale > 0
  {
    var advance := (GLYPH_WIDTH + 1) * scale;
    (column, row) =>
      var i := (column - x) / advance;
      0 <= i < |text| && GlyphBit(text[i], ((column - x) % advance) / scale, (row - y) / scale)
  }

  function TextWidth(text: string, scale: nat): nat { |text| * ((GLYPH_WIDTH + 1) * scale) }

  lemma Cell(p: int, scale: nat, k: int)
    requires scale > 0
    ensures p / scale == k <==> k * scale <= p < k * scale + scale
  {
    var d := p / scale;
    assert p == d * scale + p % scale;
    Multiples(d, k, scale);
    Multiples(k, d, scale);
  }

  lemma NextBit(c: char, x: int, y: int, scale: nat, column: nat, row: nat)
    requires scale > 0 && column < GLYPH_WIDTH && row < GLYPH_HEIGHT
    ensures var dot := RectShape(x + column * scale, y + row * scale, scale, scale);
            forall p, q ::
              CharPart(c, x, y, scale, column + 1, row)(p, q) <==>
              CharPart(c, x, y, scale, column, row)(p, q) || (GlyphBit(c, column, row) && dot(p, q))
  {
    forall p, q
      ensures CharPart(c, x, y, scale, column + 1, row)(p, q) <==>
              CharPart(c, x, y, scale, column, row)(p, q) ||
              (GlyphBit(c, column, row) && RectShape(x + column * scale, y + row * scale, scale, scale)(p, q))
    {
      Cell(p - x, scale, column);
      Cell(q - y, scale, row);
    }
  }

  lemma NoBits(c: char, x: int, y: int, scale: nat)
    requires scale > 0
    ensures forall p, q :: !CharPart(c, x, y, scale, 0, 0)(p, q)
  {
    hide GlyphBit;
    forall p, q ensures !CharPart(c, x, y, scale, 0, 0)(p, q) {
      BitInGlyph(c, (p - x) / scale, (q - y) / scale);
    }
  }

  lemma RowDone(c: char, x: int, y: int, scale: nat, row: nat)
    requires scale > 0
    ensures forall p, q :: CharPart(c, x, y, scale, 0, row + 1)(p, q) <==> CharPart(c, x, y, scale, GLYPH_WIDTH, row)(p, q)
  {
    hide GlyphBit;
    forall p, q ensures CharPart(c, x, y, scale, 0, row + 1)(p, q) <==> CharPart(c, x, y, scale, GLYPH_WIDTH, row)(p, q) {
      BitInGlyph(c, (p - x) / scale, (q - y) / scale);
    }
  }

  lemma RowsDone(c: char, x: int, y: int, scale: nat)
    requires scale > 0
    ensures forall p, q :: CharShape(c, x, y, scale)(p, q) <==> CharPart(c, x, y, scale, 0, GLYPH_HEIGHT)(p, q)
  {
    hide GlyphBit;
    forall p, q ensures CharShape(c, x, y, scale)(p, q) <==> CharPart(c, x, y, scale, 0, GLYPH_HEIGHT)(p, q) {
      BitInGlyph(c, (p - x) / scale, (q - y) / scale);
    }
  }

  lemma CellFits(x: nat, scale: nat, k: nat, cells: nat, limit: nat)
    requires k < cells && x + cells * scale <= limit
    ensures x + k * scale + scale <= limit
  {
    Multiples(k, cells, scale);
  }

  lemma IsBit(c: char, column: nat, row: nat)
    requires column < GLYPH_WIDTH && row < GLYPH_HEIGHT
    ensures GlyphBit(c, column, row) <==> RowBit(Glyph(c)[row], column)
  {
    hide Glyph, RowBit;
  }

  method DrawChar(buf: array<Byte>, pitch: nat, x: nat, y: nat, scale: nat, color: Color, c: char, ghost width: nat,
          ghost height: nat)
    requires Frame(buf.Length, pitch, width, height) && height <= U32_MAX && scale > 0
    requires x + GLYPH_WIDTH * scale <= width && y + GLYPH_HEIGHT * scale <= height
    modifies buf
    ensures Painted(old(buf[..]), buf[..], pitch, width, color, CharShape(c, x, y, scale))
  {
    hide Painted, Channel, Glyph, RowBit, GlyphBit, CharPart, CharShape, RectShape;
    ghost var before := buf[..];
    var bits := Glyph(c);
    NoBits(c, x, y, scale);
    PaintedNothing(before, pitch, width, color, CharPart(c, x, y, scale, 0, 0));
    for row := 0 to GLYPH_HEIGHT
      invariant Painted(before, buf[..], pitch, width, color, CharPart(c, x, y, scale, 0, row))
    {
      for column := 0 to GLYPH_WIDTH
        invariant Painted(before, buf[..], pitch, width, color, CharPart(c, x, y, scale, column, row))
      {
        NextBit(c, x, y, scale, column, row);
        ghost var part, next := CharPart(c, x, y, scale, column, row), CharPart(c, x, y, scale, column + 1, row);
        IsBit(c, column, row);
        if RowBit(bits[row], column) {
          CellFits(x, scale, column, GLYPH_WIDTH, width);
          CellFits(y, scale, row, GLYPH_HEIGHT, height);
          ghost var middle := buf[..];
          FillRect(buf, pitch, x + column * scale, y + row * scale, scale, scale, color, width, height);
          PaintedUnion(before, middle, buf[..], pitch, width, color, part,
                       RectShape(x + column * scale, y + row * scale, scale, scale), next);
        } else {
          PaintedSame(before, buf[..], pitch, width, color, part, next);
        }
      }
      RowDone(c, x, y, scale, row);
      PaintedSame(before, buf[..], pitch, width, color,
                  CharPart(c, x, y, scale, GLYPH_WIDTH, row), CharPart(c, x, y, scale, 0, row + 1));
    }
    RowsDone(c, x, y, scale);
    PaintedSame(before, buf[..], pitch, width, color, CharPart(c, x, y, scale, 0, GLYPH_HEIGHT), CharShape(c, x, y, scale));
  }

  /** The text up to and with character i. */
  lemma NextChar(text: string, x: int, y: int, scale: nat, i: nat)
    requires scale > 0 && i < |text|
    ensures var advance := (GLYPH_WIDTH + 1) * scale;
            forall p, q ::
              TextShape(text[..i + 1], x, y, scale)(p, q) <==>
              TextShape(text[..i], x, y, scale)(p, q) || CharShape(text[i], x + i * advance, y, scale)(p, q)
  {
    var advance := (GLYPH_WIDTH + 1) * scale;
    forall p, q
      ensures TextShape(text[..i + 1], x, y, scale)(p, q) <==>
              TextShape(text[..i], x, y, scale)(p, q) || CharShape(text[i], x + i * advance, y, scale)(p, q)
    {
      NextCharAt(text, x, y, scale, i, p, q);
    }
  }

  lemma NextCharAt(text: string, x: int, y: int, scale: nat, i: nat, p: int, q: int)
    requires scale > 0 && i < |text|
    ensures var advance := (GLYPH_WIDTH + 1) * scale;
            TextShape(text[..i + 1], x, y, scale)(p, q) <==>
            TextShape(text[..i], x, y, scale)(p, q) || CharShape(text[i], x + i * advance, y, scale)(p, q)
  {
    hide GlyphBit;
    var advance := (GLYPH_WIDTH + 1) * scale;
    var j := (p - x) / advance;
    BitInGlyph(text[i], (p - (x + i * advance)) / scale, (q - y) / scale);
    assert p - (x + i * advance) == p - x - i * advance;
    Cell(p - x, advance, i);
    CharInCell(p - x - i * advance, scale);
    if j == i {
      assert (p - x) % advance == p - x - i * advance;
      assert text[..i + 1][i] == text[i];
    } else {
      assert !CharShape(text[i], x + i * advance, y, scale)(p, q);
      assert 0 <= j < i ==> text[..i + 1][j] == text[..i][j];
    }
  }

  lemma CharInCell(p: int, scale: nat)
    requires scale > 0
    ensures 0 <= p / scale < GLYPH_WIDTH ==> 0 <= p < (GLYPH_WIDTH + 1) * scale
  {
    if 0 <= p / scale < GLYPH_WIDTH {
      Cell(p, scale, p / scale);
      Multiples(p / scale, GLYPH_WIDTH, scale);
    }
  }

  /** Draws a text: the pixels of its characters, each in a cell of its own, and nothing else. */
  method DrawText(buf: array<Byte>, pitch: nat, x: nat, y: nat, scale: nat, color: Color, text: string,
                  ghost width: nat, ghost height: nat)
    requires Frame(buf.Length, pitch, width, height) && height <= U32_MAX && scale > 0
    requires x + TextWidth(text, scale) <= width && y + GLYPH_HEIGHT * scale <= height
    modifies buf
    ensures Painted(old(buf[..]), buf[..], pitch, width, color, TextShape(text, x, y, scale))
  {
    hide Painted, Channel, Glyph, RowBit, TextShape, CharShape;
    ghost var before := buf[..];
    var advance := (GLYPH_WIDTH + 1) * scale;
    NoText(x, y, scale);
    assert text[..0] == [];
    PaintedNothing(before, pitch, width, color, TextShape(text[..0], x, y, scale));
    for i := 0 to |text|
      invariant Painted(before, buf[..], pitch, width, color, TextShape(text[..i], x, y, scale))
    {
      ghost var middle := buf[..];
      CellFits(x, advance, i, |text|, width);
      DrawChar(buf, pitch, x + i * advance, y, scale, color, text[i], width, height);
      NextChar(text, x, y, scale, i);
      PaintedUnion(before, middle, buf[..], pitch, width, color, TextShape(text[..i], x, y, scale),
                   CharShape(text[i], x + i * advance, y, scale), TextShape(text[..i + 1], x, y, scale));
    }
    assert text[..|text|] == text;
  }

  lemma NoText(x: int, y: int, scale: nat)
    requires scale > 0
    ensures forall p, q :: !TextShape([], x, y, scale)(p, q)
  {
  }

  /** Where each bit is: the one in this column and row of character i is a square of the scale, six columns of squares
      to a character, the first row on top. */
  lemma BitIsSquare(text: string, x: int, y: int, scale: nat, i: nat, column: nat, row: nat, dx: nat, dy: nat)
    requires i < |text| && column < 6 && row < 7 && dx < scale && dy < scale
    ensures TextShape(text, x, y, scale)(x + i * (6 * scale) + column * scale + dx, y + row * scale + dy) <==>
            column < 5 && RowBit(Glyph(text[i])[row], column)
  {
    hide Glyph, RowBit;
    var advance := 6 * scale;
    var within := column * scale + dx;
    var p, q := i * advance + within, row * scale + dy;
    Multiples(column, 6, scale);
    Cell(p, advance, i);
    DivMod(i, advance, within);
    Cell(within, scale, column);
    Cell(q, scale, row);
    assert x + i * (6 * scale) + column * scale + dx == x + p && y + row * scale + dy == y + q;
    TextShapeAt(text, x, y, scale, p, q);
  }

  lemma TextShapeAt(text: string, x: int, y: int, scale: nat, p: int, q: int)
    requires scale > 0
    ensures var advance := 6 * scale;
      TextShape(text, x, y, scale)(x + p, y + q) <==>
      0 <= p / advance < |text| && GlyphBit(text[p / advance], p % advance / scale, q / scale)
  {
    hide GlyphBit;
    assert x + p - x == p && y + q - y == q;
  }

  /** A text stays in the box that its width promises. */
  lemma TextStaysInBox(text: string, x: int, y: int, scale: nat, column: int, row: int)
    requires scale > 0 && TextShape(text, x, y, scale)(column, row)
    ensures RectShape(x, y, TextWidth(text, scale), GLYPH_HEIGHT * scale)(column, row)
  {
    hide GlyphBit;
    var advance := (GLYPH_WIDTH + 1) * scale;
    var i := (column - x) / advance;
    var k := (row - y) / scale;
    BitInGlyph(text[i], ((column - x) % advance) / scale, k);
    Cell(column - x, advance, i);
    Cell(row - y, scale, k);
    Multiples(i, |text|, advance);
    Multiples(k, GLYPH_HEIGHT, scale);
    assert i * advance >= 0 && k * scale >= 0;
  }
}
