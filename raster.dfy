/** Glyph rasterisation of the text terminal into the 16-bit pixel buffer,
    stated over sequences. The pixel buffer is addressed as bytes: 16-bit
    pixel p occupies bytes 2p and 2p+1, and since the only values ever drawn
    are 0xFFFF and 0x0000 both bytes of a drawn pixel are equal, whatever the
    byte order.

    Two definitions are kept apart:
    - AsWrittenRaster: what the drawing loop of the adapter does. Its column
      counter and its glyph-bit counter are reset only by branches that the
      loop guards make unreachable, so both stay 0: only glyph bit 0 of each
      of the 8 glyph rows of the characters in terminal column 0 is drawn,
      at screen x = 0.
    - IntendedRaster: the full 8x8 expansion of every cell. */
module Raster {
  import opened MemoryBank

  /** The external 8x8 font: 256 glyphs of 8 rows, bit y of row x set when
      pixel (x, y) of the glyph is lit. */
  type Font = seq<seq<byte>>

  predicate IsFont(font: Font) {
    |font| == 256 && forall c :: 0 <= c < 256 ==> |font[c]| == 8
  }

  /** Whether bit `y` of glyph row `x` of character `ch` is set. */
  function GlyphBit(font: Font, ch: byte, x: nat, y: nat): (r: bool)
    requires IsFont(font) && x < 8 && y < 8
    ensures r <==> (font[ch as int][x] >> y) & 1 == 1
  {
    font[ch as int][x] & ((1 as byte) << y) != 0
  }

  /** Either byte of a drawn 16-bit pixel: all ones when set, zero otherwise. */
  function PixelByte(lit: bool): byte {
    if lit then 0xFF else 0
  }

  // ---------------------------------------------------------------------
  // Arithmetic on the row-major screen layout.

  lemma MulLeft(a: int, b: int, w: int)
    requires 0 <= a <= b && 0 <= w
    ensures a * w <= b * w
  {
    assert b * w == a * w + (b - a) * w;
  }

  /** Division by the screen width recovers the line and the column of a
      pixel index. */
  lemma DivModUnique(q: int, r: int, w: int)
    requires 0 <= q && 0 <= r < w
    ensures (q * w + r) / w == q && (q * w + r) % w == r
  {
    var n := q * w + r;
    var d, m := n / w, n % w;
    assert n == d * w + m;
    assert (q - d) * w == m - r;
    if q - d >= 1 {
      MulLeft(1, q - d, w);
    } else if q - d <= -1 {
      MulLeft(1, d - q, w);
    }
  }

  /** A pixel index is the start of line `n` exactly when its column is 0 and
      its line is `n`. */
  lemma LineStart(p: nat, w: nat, n: nat)
    requires w > 0
    ensures (p % w == 0 && p / w == n) <==> p == n * w
  {
    if p == n * w {
      DivModUnique(n, 0, w);
    }
  }

  // ---------------------------------------------------------------------
  // The drawing loop as written.

  /** Whether pixel `p` is among those the loop writes once it has drawn the
      first `lines` screen lines: the first pixel, `line * width`, of each of
      those lines. Nothing at all is drawn without columns. */
  predicate AsWrittenDrawn(p: nat, columns: nat, width: nat, lines: nat)
    requires width > 0
  {
    columns > 0 && p % width == 0 && p / width < lines
  }

  /** The byte the loop writes for screen line `line`: line `line` belongs to
      terminal row line / 8 and is glyph row line % 8 of that row's
      column-0 character; the glyph bit read is bit 0. */
  function AsWrittenLineByte(text: seq<byte>, font: Font, rows: nat, columns: nat, line: nat): byte
    requires IsFont(font) && line < 8 * rows
    requires columns == 0 || (rows - 1) * columns < |text|
  {
    var row := line / 8;
    MulLeft(row, rows - 1, columns);
    PixelByte(GlyphBit(font, if columns == 0 then 0 else text[row * columns], line % 8, 0))
  }

  /** Either byte of pixel `p` once the loop has drawn `lines` lines, where
      `prior` is its value before the loop. */
  function AsWrittenByte(text: seq<byte>, font: Font, rows: nat, columns: nat, width: nat,
                         lines: nat, p: nat, prior: byte): byte
    requires IsFont(font) && width > 0 && lines <= 8 * rows
    requires columns == 0 || (rows - 1) * columns < |text|
  {
    if AsWrittenDrawn(p, columns, width, lines)
    then AsWrittenLineByte(text, font, rows, columns, p / width)
    else prior
  }

  /** The pixel buffer after the loop has drawn its first `lines` lines. */
  function AsWrittenRaster(px: seq<byte>, text: seq<byte>, font: Font,
                           rows: nat, columns: nat, width: nat, lines: nat): (r: seq<byte>)
    requires IsFont(font) && width > 0 && lines <= 8 * rows
    requires columns == 0 || (rows - 1) * columns < |text|
    ensures |r| == |px|
    ensures forall i :: 0 <= i < |px| && !AsWrittenDrawn(i / 2, columns, width, lines) ==> r[i] == px[i]
  {
    seq(|px|, i requires 0 <= i < |px| =>
      AsWrittenByte(text, font, rows, columns, width, lines, i / 2, px[i]))
  }

  /** Without columns the loop draws nothing. */
  lemma AsWrittenNoColumns(px: seq<byte>, text: seq<byte>, font: Font,
                           rows: nat, width: nat, lines: nat)
    requires IsFont(font) && width > 0 && lines <= 8 * rows
    ensures AsWrittenRaster(px, text, font, rows, 0, width, lines) == px
  {
  }

  /** Drawing one more line writes the two bytes of that line's first pixel
      and nothing else. */
  lemma AsWrittenStep(px: seq<byte>, text: seq<byte>, font: Font,
                      rows: nat, columns: nat, width: nat, line: nat)
    requires IsFont(font) && width > 0 && line < 8 * rows && columns > 0
    requires (rows - 1) * columns < |text|
    requires 2 * (line * width) + 1 < |px|
    ensures
      var v := AsWrittenLineByte(text, font, rows, columns, line);
      AsWrittenRaster(px, text, font, rows, columns, width, line + 1)
      == AsWrittenRaster(px, text, font, rows, columns, width, line)[2 * (line * width) := v][2 * (line * width) + 1 := v]
  {
    var v := AsWrittenLineByte(text, font, rows, columns, line);
    var a := AsWrittenRaster(px, text, font, rows, columns, width, line + 1);
    var b := AsWrittenRaster(px, text, font, rows, columns, width, line)[2 * (line * width) := v][2 * (line * width) + 1 := v];
    forall i | 0 <= i < |px| ensures a[i] == b[i] {
      LineStart(i / 2, width, line);
    }
  }

  /** One pass of the inner loop for terminal row `row` and glyph row `x`:
      the pixel it writes, (row * 8 + x) * width, lies inside a buffer of
      `pixelCount` pixels, and writing it moves the drawing on by one line. */
  lemma DrawStep(px: seq<byte>, text: seq<byte>, font: Font, rows: nat, columns: nat,
                 width: nat, pixelCount: nat, row: nat, x: nat)
    requires IsFont(font) && width > 0 && columns > 0 && row < rows && x < 8
    requires (rows - 1) * columns < |text| && (8 * rows - 1) * width < pixelCount
    requires |px| == 2 * pixelCount
    ensures row * columns < |text|
    ensures
      var ptr := (row * 8 + x) * width;
      var v := PixelByte(GlyphBit(font, text[row * columns], x, 0));
      && 2 * ptr + 1 < |px|
      && AsWrittenRaster(px, text, font, rows, columns, width, 8 * row + x + 1)
         == AsWrittenRaster(px, text, font, rows, columns, width, 8 * row + x)[2 * ptr := v][2 * ptr + 1 := v]
  {
    var line := 8 * row + x;
    MulLeft(row, rows - 1, columns);
    MulLeft(line, 8 * rows - 1, width);
    assert line / 8 == row && line % 8 == x;
    AsWrittenStep(px, text, font, rows, columns, width, line);
  }

  /** What the loop draws, cell by cell: for every terminal row `row` and glyph
      row `x`, the pixel at ((row * 8 + x) * width) + column * 8 + y, with the
      loop's column and y counters both 0, holds glyph bit y of row x of the
      character of cell (row, column). */
  lemma AsWrittenPixel(px: seq<byte>, text: seq<byte>, font: Font,
                       rows: nat, columns: nat, width: nat, row: nat, x: nat)
    requires IsFont(font) && width > 0 && columns > 0
    requires (rows - 1) * columns < |text|
    requires row < rows && x < 8
    requires 2 * ((row * 8 + x) * width) + 1 < |px|
    ensures row * columns < |text|
    ensures
      var column, y := 0, 0;
      var p := ((row * 8 + x) * width) + column * 8 + y;
      var r := AsWrittenRaster(px, text, font, rows, columns, width, 8 * rows);
      && r[2 * p] == PixelByte(GlyphBit(font, text[row * columns + column], x, y))
      && r[2 * p + 1] == r[2 * p]
  {
    var line := row * 8 + x;
    var p := line * width;
    var r := AsWrittenRaster(px, text, font, rows, columns, width, 8 * rows);
    MulLeft(row, rows - 1, columns);
    DivModUnique(line, 0, width);
    assert AsWrittenDrawn(p, columns, width, 8 * rows);
    assert line / 8 == row && line % 8 == x;
    var v := AsWrittenLineByte(text, font, rows, columns, line);
    assert v == PixelByte(GlyphBit(font, text[row * columns], x, 0));
    assert (2 * p) / 2 == p && (2 * p + 1) / 2 == p;
    assert r[2 * p] == AsWrittenByte(text, font, rows, columns, width, 8 * rows, p, px[2 * p]) == v;
    assert r[2 * p + 1] == AsWrittenByte(text, font, rows, columns, width, 8 * rows, p, px[2 * p + 1]) == v;
  }

  /** Every byte the loop changes belongs to a pixel at screen x = 0 of one
      of the 8 * rows terminal lines: no other pixel is touched. */
  lemma AsWrittenOnlyColumnZero(px: seq<byte>, text: seq<byte>, font: Font,
                                rows: nat, columns: nat, width: nat, i: nat)
    requires IsFont(font) && width > 0
    requires columns == 0 || (rows - 1) * columns < |text|
    requires i < |px|
    requires AsWrittenRaster(px, text, font, rows, columns, width, 8 * rows)[i] != px[i]
    ensures columns > 0
    ensures exists line :: 0 <= line < 8 * rows && i / 2 == line * width
  {
    var line := (i / 2) / width;
    LineStart(i / 2, width, line);
  }

  // ---------------------------------------------------------------------
  // The intended drawing: every cell expanded to its full 8x8 glyph.

  /** Cell (row, column) of a rows x columns terminal is character
      row * columns + column of the row-major text buffer. */
  lemma CellInText(rows: nat, columns: nat, row: nat, column: nat)
    requires row < rows && column < columns
    ensures row * columns + column < rows * columns
  {
    MulLeft(row + 1, rows, columns);
  }

  /** Either byte of the pixel showing glyph bit y of glyph row x of the
      character in cell (row, column). */
  function CellPixelByte(text: seq<byte>, font: Font, rows: nat, columns: nat,
                         row: nat, column: nat, x: nat, y: nat): byte
    requires IsFont(font) && rows * columns <= |text|
    requires row < rows && column < columns && x < 8 && y < 8
  {
    CellInText(rows, columns, row, column);
    PixelByte(GlyphBit(font, text[row * columns + column], x, y))
  }

  /** Either byte of pixel `p` in the intended drawing, where `prior` is its
      value before drawing: pixel p lies on screen line p / width at screen
      column p % width. */
  function IntendedByte(text: seq<byte>, font: Font, rows: nat, columns: nat, width: nat,
                        p: nat, prior: byte): byte
    requires IsFont(font) && width > 0
    requires rows * columns <= |text|
  {
    var line, sx := p / width, p % width;
    if line < 8 * rows && sx < 8 * columns
    then CellPixelByte(text, font, rows, columns, line / 8, sx / 8, line % 8, sx % 8)
    else prior
  }

  /** The pixel buffer with every terminal cell (row, column) drawn as the
      8x8 block of lines row*8 .. row*8+7 and screen columns
      column*8 .. column*8+7; pixels outside the terminal area keep their
      value. */
  function IntendedRaster(px: seq<byte>, text: seq<byte>, font: Font,
                          rows: nat, columns: nat, width: nat): (r: seq<byte>)
    requires IsFont(font) && width > 0
    requires rows * columns <= |text|
    ensures |r| == |px|
    ensures forall i :: 0 <= i < |px| && !(i / 2 / width < 8 * rows && i / 2 % width < 8 * columns) ==> r[i] == px[i]
  {
    seq(|px|, i requires 0 <= i < |px| =>
      IntendedByte(text, font, rows, columns, width, i / 2, px[i]))
  }

  /** The intended drawing puts glyph bit y of glyph row x of the character of
      cell (row, column) at pixel ((row * 8 + x) * width) + column * 8 + y,
      both of its bytes. */
  lemma IntendedRasterCell(px: seq<byte>, text: seq<byte>, font: Font,
                           rows: nat, columns: nat, width: nat,
                           row: nat, column: nat, x: nat, y: nat)
    requires IsFont(font) && width > 0 && 8 * columns <= width
    requires rows * columns <= |text|
    requires row < rows && column < columns && x < 8 && y < 8
    requires 2 * (((row * 8 + x) * width) + column * 8 + y) + 1 < |px|
    ensures
      var p := ((row * 8 + x) * width) + column * 8 + y;
      var r := IntendedRaster(px, text, font, rows, columns, width);
      && r[2 * p] == CellPixelByte(text, font, rows, columns, row, column, x, y)
      && r[2 * p + 1] == r[2 * p]
  {
    var line, sx := row * 8 + x, column * 8 + y;
    var p := line * width + sx;
    DivModUnique(line, sx, width);
    assert (2 * p) / 2 == p && (2 * p + 1) / 2 == p;
    assert line / 8 == row && line % 8 == x;
    assert sx / 8 == column && sx % 8 == y;
    assert IntendedByte(text, font, rows, columns, width, p, 0)
        == CellPixelByte(text, font, rows, columns, row, column, x, y);
  }

  /** Wherever the loop as written draws, it draws what the intended drawing
      draws there: it is the intended drawing restricted to pixel x = 0 of
      each cell of terminal column 0. */
  lemma AsWrittenAgreesWithIntended(px: seq<byte>, text: seq<byte>, font: Font,
                                    rows: nat, columns: nat, width: nat, i: nat)
    requires IsFont(font) && width > 0 && 8 * columns <= width
    requires rows * columns <= |text| && (columns == 0 || (rows - 1) * columns < |text|)
    requires i < |px| && AsWrittenDrawn(i / 2, columns, width, 8 * rows)
    ensures AsWrittenRaster(px, text, font, rows, columns, width, 8 * rows)[i]
         == IntendedRaster(px, text, font, rows, columns, width)[i]
  {
  }

  /** The loop as written leaves cells undrawn: on a one-row, two-column
      terminal 16 pixels wide, with every glyph fully lit, pixel x = 1 of
      cell (0, 0) and pixel x = 0 of cell (0, 1) keep their old value 0,
      while the intended drawing lights both. */
  lemma AsWrittenMissesCells()
    ensures
      var font := seq(256, c => seq(8, x => 0xFF as byte));
      var px := seq(256, i => 0 as byte);
      var text := [0x41 as byte, 0x41];
      && AsWrittenRaster(px, text, font, 1, 2, 16, 8)[2 * 1] == 0
      && IntendedRaster(px, text, font, 1, 2, 16)[2 * 1] == 0xFF
      && AsWrittenRaster(px, text, font, 1, 2, 16, 8)[2 * 8] == 0
      && IntendedRaster(px, text, font, 1, 2, 16)[2 * 8] == 0xFF
  {
    var font := seq(256, c => seq(8, x => 0xFF as byte));
    assert IsFont(font);
    assert GlyphBit(font, 0x41, 0, 1) && GlyphBit(font, 0x41, 0, 0);
  }
}
