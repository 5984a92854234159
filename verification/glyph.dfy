/**
 * The glyph extractor of the bitmap font backend (`rasterize_glyph`): it
 * locates a character's cell in the atlas from its code point and copies the
 * cell, one RGB triple at a time, into a fresh buffer.
 */
module Glyph {
  import opened Types
  import opened Atlas

  /**
   * Code point of '!', the first character the atlas holds. It sits in cell
   * 1: cell 0 and the padding gap after it hold the metrics markers.
   */
  const FirstCharacter: nat := 33

  /** Horizontal pixel offset of the cell of code point `code`. */
  function XOffset(font: BitmapFont, code: nat): nat
    requires FirstCharacter <= code
  {
    (font.averageAdvance + font.paddingWidth) * (code - FirstCharacter + 1)
  }

  /**
   * The last byte of a cell that starts at column `xOffset` and spans the
   * glyph width and the full atlas height lies inside the atlas buffer. The
   * extractor does not check this: a cell past the end of the atlas makes
   * the copy index out of bounds.
   */
  predicate CellFits(font: BitmapFont, xOffset: nat)
    requires font.Consistent()
  {
    PixelOffset(font.atlasWidth, xOffset + font.averageAdvance - 1, font.lineHeight - 1) + 2 < |font.img.data|
  }

  /** Every byte of a fitting cell lies inside the atlas buffer. */
  lemma CellByteInBounds(font: BitmapFont, xOffset: nat, x: nat, y: nat)
    requires font.Consistent() && CellFits(font, xOffset)
    requires x < font.averageAdvance && y < font.lineHeight
    ensures PixelOffset(font.atlasWidth, xOffset + x, y) + 2 < |font.img.data|
  {
    MulMonotone(y, font.lineHeight - 1, font.atlasWidth);
  }

  /** Byte c of pixel (x, y) of a row-major RGB buffer `width` pixels wide. */
  function ByteAt(bytes: seq<Byte>, width: nat, x: nat, y: nat, c: nat): Byte
    requires PixelOffset(width, x, y) + c < |bytes|
  {
    bytes[PixelOffset(width, x, y) + c]
  }

  /** The atlas bytes of one row of the cell. */
  function CellRow(font: BitmapFont, xOffset: nat, y: nat): (row: seq<Byte>)
    requires font.Consistent() && CellFits(font, xOffset) && y < font.lineHeight
    ensures |row| == font.averageAdvance * PixelComponents
  {
    CellByteInBounds(font, xOffset, font.averageAdvance - 1, y);
    var start := PixelOffset(font.atlasWidth, xOffset, y);
    font.img.data[start..start + font.averageAdvance * PixelComponents]
  }

  /** Copying pixel x of row y extends the copied prefix of that row by its three bytes. */
  lemma CellRowStep(font: BitmapFont, xOffset: nat, y: nat, x: nat)
    requires font.Consistent() && CellFits(font, xOffset)
    requires y < font.lineHeight && x < font.averageAdvance
    ensures PixelOffset(font.atlasWidth, xOffset + x, y) + 2 < |font.img.data|
    ensures
      var i := PixelOffset(font.atlasWidth, xOffset + x, y);
      CellRow(font, xOffset, y)[..(x + 1) * PixelComponents]
        == CellRow(font, xOffset, y)[..x * PixelComponents] + [font.img.data[i], font.img.data[i + 1], font.img.data[i + 2]]
  {
    CellByteInBounds(font, xOffset, x, y);
    CellByteInBounds(font, xOffset, font.averageAdvance - 1, y);
    var row := CellRow(font, xOffset, y);
    var start := PixelOffset(font.atlasWidth, xOffset, y);
    var i := PixelOffset(font.atlasWidth, xOffset + x, y);
    assert row == font.img.data[start..start + font.averageAdvance * PixelComponents];
    assert i == start + x * PixelComponents;
    assert row[..(x + 1) * PixelComponents] == font.img.data[start..i + 3];
    assert row[..x * PixelComponents] == font.img.data[start..i];
  }

  /** The first `rows` rows of the cell, packed one after the other. */
  function CellRows(font: BitmapFont, xOffset: nat, rows: nat): (bytes: seq<Byte>)
    requires font.Consistent() && CellFits(font, xOffset) && rows <= font.lineHeight
    ensures |bytes| == font.averageAdvance * rows * PixelComponents
  {
    if rows == 0 then []
    else CellRows(font, xOffset, rows - 1) + CellRow(font, xOffset, rows - 1)
  }

  /** Pixel (x, y) of the packed cell is pixel (xOffset + x, y) of the atlas. */
  lemma {:induction false} CellRowsAt(font: BitmapFont, xOffset: nat, rows: nat, x: nat, y: nat, c: nat)
    requires font.Consistent() && CellFits(font, xOffset) && rows <= font.lineHeight
    requires x < font.averageAdvance && y < rows && c < PixelComponents
    ensures PixelOffset(font.averageAdvance, x, y) + c < |CellRows(font, xOffset, rows)|
    ensures PixelOffset(font.atlasWidth, xOffset + x, y) + c < |font.img.data|
    ensures ByteAt(CellRows(font, xOffset, rows), font.averageAdvance, x, y, c)
         == ByteAt(font.img.data, font.atlasWidth, xOffset + x, y, c)
  {
    CellByteInBounds(font, xOffset, x, y);
    var prefix, row := CellRows(font, xOffset, rows - 1), CellRow(font, xOffset, rows - 1);
    var k := PixelOffset(font.averageAdvance, x, y) + c;
    if y < rows - 1 {
      CellRowsAt(font, xOffset, rows - 1, x, y, c);
      assert k < |prefix|;
      assert (prefix + row)[k] == prefix[k];
    } else {
      var start := PixelOffset(font.atlasWidth, xOffset, y);
      assert |prefix| == font.averageAdvance * y * PixelComponents;
      assert k == |prefix| + x * PixelComponents + c;
      assert (prefix + row)[k] == row[x * PixelComponents + c];
      CellByteInBounds(font, xOffset, font.averageAdvance - 1, y);
      assert row == font.img.data[start..start + font.averageAdvance * PixelComponents];
      assert x * PixelComponents + c < font.averageAdvance * PixelComponents;
      assert row[x * PixelComponents + c] == font.img.data[start + x * PixelComponents + c];
      assert start + x * PixelComponents + c == PixelOffset(font.atlasWidth, xOffset + x, y) + c;
    }
  }

  /** The glyph buffer holds, pixel by pixel, the cell starting at column `xOffset` of the atlas. */
  predicate IsCellCopy(bytes: seq<Byte>, font: BitmapFont, xOffset: nat)
    requires font.Consistent() && CellFits(font, xOffset)
  {
    && |bytes| == font.averageAdvance * font.lineHeight * PixelComponents
    && forall x: nat, y: nat, c: nat | x < font.averageAdvance && y < font.lineHeight && c < PixelComponents ::
         PixelInImage(font.averageAdvance, font.lineHeight, x, y);
         CellByteInBounds(font, xOffset, x, y);
         ByteAt(bytes, font.averageAdvance, x, y, c) == ByteAt(font.img.data, font.atlasWidth, xOffset + x, y, c)
  }

  /** The whole packed cell is a pixel-by-pixel copy of the cell. */
  lemma CellRowsIsCellCopy(font: BitmapFont, xOffset: nat)
    requires font.Consistent() && CellFits(font, xOffset)
    ensures IsCellCopy(CellRows(font, xOffset, font.lineHeight), font, xOffset)
  {
    var bytes := CellRows(font, xOffset, font.lineHeight);
    forall x: nat, y: nat, c: nat | x < font.averageAdvance && y < font.lineHeight && c < PixelComponents
      ensures PixelOffset(font.averageAdvance, x, y) + c < |bytes|
      ensures PixelOffset(font.atlasWidth, xOffset + x, y) + c < |font.img.data|
      ensures ByteAt(bytes, font.averageAdvance, x, y, c) == ByteAt(font.img.data, font.atlasWidth, xOffset + x, y, c)
    {
      CellRowsAt(font, xOffset, font.lineHeight, x, y, c);
    }
  }

  /**
   * The copy loop of `rasterize_glyph`: an averageAdvance x lineHeight
   * rectangle of the atlas: rows 0 to lineHeight - 1 of the character's
   * cell, skipping no row, starting at the cell's column offset.
   */
  method ExtractGlyph(font: BitmapFont, character: char) returns (glyph: RasterizedGlyph)
    requires font.Consistent()
    requires FirstCharacter <= character as nat
    requires CellFits(font, XOffset(font, character as nat))
    ensures glyph.character == character
    ensures glyph.width == font.averageAdvance && glyph.height == font.lineHeight
    ensures glyph.top == font.lineHeight && glyph.left == 0 && glyph.advance == (0, 0)
    ensures glyph.buffer.Rgb?
    ensures IsCellCopy(glyph.buffer.bytes, font, XOffset(font, character as nat))
  {
    var fontData := font.img.data;
    var xOffset := (font.averageAdvance + font.paddingWidth) * (character as nat - FirstCharacter + 1);
    var data: seq<Byte> := [];

    for y := 0 to font.lineHeight
      invariant data == CellRows(font, xOffset, y)
    {
      for x := 0 to font.averageAdvance
        invariant data == CellRows(font, xOffset, y) + CellRow(font, xOffset, y)[..x * PixelComponents]
      {
        var i := (x + xOffset + y * font.atlasWidth) * PixelComponents;
        CellRowStep(font, xOffset, y, x);
        data := data + [fontData[i], fontData[i + 1], fontData[i + 2]];
      }
    }

    glyph := RasterizedGlyph(
      character := character,
      width := font.averageAdvance,
      height := font.lineHeight,
      top := font.lineHeight,
      left := 0,
      advance := (0, 0),
      buffer := Rgb(data));

    CellRowsIsCellCopy(font, xOffset);
  }
}
