/**
 * The atlas decoder of the bitmap font backend: the pixel test
 * `check_pixel_color` and the marker scan in `load_font` that recovers the
 * glyph cell width, the cell padding and the underline and strikeout
 * geometry from sentinel pixels of a row-major RGB atlas.
 *
 * `Decode` is the reference definition of what the scan computes, written
 * with one recursive scanner per marker; `DecodeAtlas` is the scan as the
 * source performs it, with loops, early exits and counters, and is proved
 * equal to `Decode`. The lemmas at the end state what a decoded font means
 * in terms of the atlas pixels.
 */
module Atlas {
  import opened Types

  /** Pixels are stored as three bytes: red, green, blue. */
  const PixelComponents: nat := 3

  datatype Color = Color(r: Byte, g: Byte, b: Byte)

  /** Last pixel of the glyph-width marker, in row 0. */
  const Green := Color(0, 255, 0)
  /** Padding marker pixels, in row 0 right after the glyph-width marker. */
  const Magenta := Color(255, 0, 255)
  /** Underline marker pixels, in column 0. */
  const Red := Color(255, 0, 0)
  /** Strikeout marker pixels, in column 0. */
  const Blue := Color(0, 0, 255)

  /** A decoded atlas image: row-major RGB bytes. */
  datatype RgbImage = RgbImage(width: nat, height: nat, data: seq<Byte>) {
    predicate Valid() {
      |data| == width * height * PixelComponents
    }
  }

  /**
   * An image the scan can run on: a non-empty row 0 needs at least one row
   * (otherwise reading pixel (0, 0) would index past the empty buffer).
   */
  predicate Decodable(img: RgbImage) {
    img.Valid() && (img.width == 0 || 0 < img.height)
  }

  /** A loaded font: the whole atlas plus the geometry read from its markers. */
  datatype BitmapFont = BitmapFont(
    img: RgbImage,
    atlasWidth: nat,
    paddingWidth: nat,
    averageAdvance: nat,
    lineHeight: nat,
    underlinePosition: nat,
    underlineThickness: nat,
    strikeoutPosition: nat,
    strikeoutThickness: nat)
  {
    /** What every successfully decoded font satisfies. */
    predicate Consistent() {
      && img.Valid()
      && atlasWidth == img.width
      && lineHeight == img.height
      && 1 <= averageAdvance
      && averageAdvance + paddingWidth <= atlasWidth
      && 1 <= underlineThickness <= underlinePosition <= lineHeight
      && 1 <= strikeoutThickness <= strikeoutPosition <= lineHeight
    }
  }

  /** Why decoding failed: which marker is missing. */
  datatype DecodeError = MissingGlyphWidth | MissingUnderline | MissingStrikeout
  {
    /** The message the backend wraps in a platform error. */
    function Message(): string {
      match this
      case MissingGlyphWidth => "Can't determine font glyph width"
      case MissingUnderline => "Can't determine font underline position"
      case MissingStrikeout => "Can't determine font strikeout position"
    }
  }

  /** Index of the first byte of pixel (x, y). */
  function PixelOffset(atlasWidth: nat, x: nat, y: nat): nat {
    (x + y * atlasWidth) * PixelComponents
  }

  lemma MulMonotone(a: nat, b: nat, c: nat)
    requires a <= b
    ensures a * c <= b * c
  {
  }

  /** Every pixel inside the image has its three bytes inside the buffer. */
  lemma PixelInImage(width: nat, height: nat, x: nat, y: nat)
    requires x < width && y < height
    ensures PixelOffset(width, x, y) + 2 < width * height * PixelComponents
  {
    calc {
      x + y * width;
    <
      (y + 1) * width;
    <=  { MulMonotone(y + 1, height, width); }
      height * width;
    }
  }

  /** The colour of pixel (x, y) of a row-major RGB buffer `atlasWidth` pixels wide. */
  function PixelAt(data: seq<Byte>, atlasWidth: nat, x: nat, y: nat): Color
    requires PixelOffset(atlasWidth, x, y) + 2 < |data|
  {
    var i := PixelOffset(atlasWidth, x, y);
    Color(data[i], data[i + 1], data[i + 2])
  }

  /** Whether pixel (x, y) of `data` has exactly the colour (r, g, b). */
  function CheckPixelColor(data: seq<Byte>, atlasWidth: nat, x: nat, y: nat, r: Byte, g: Byte, b: Byte): (matches: bool)
    requires PixelOffset(atlasWidth, x, y) + 2 < |data|
    ensures matches <==> PixelAt(data, atlasWidth, x, y) == Color(r, g, b)
  {
    var i := PixelOffset(atlasWidth, x, y);
    data[i] == r && data[i + 1] == g && data[i + 2] == b
  }

  /** Pixel (x, y) of the image has colour c. */
  predicate PixelIs(img: RgbImage, x: nat, y: nat, c: Color)
    requires img.Valid() && x < img.width && y < img.height
  {
    PixelInImage(img.width, img.height, x, y);
    CheckPixelColor(img.data, img.width, x, y, c.r, c.g, c.b)
  }

  /** The first column at or after x whose row-0 pixel has colour c. */
  function FirstInRow0(img: RgbImage, c: Color, x: nat): (found: Option<nat>)
    requires Decodable(img) && x <= img.width
    ensures found.Some? ==> x <= found.value < img.width && PixelIs(img, found.value, 0, c)
    ensures forall k :: x <= k < img.width && (found.None? || k < found.value) ==> !PixelIs(img, k, 0, c)
    decreases img.width - x
  {
    if x == img.width then None
    else if PixelIs(img, x, 0, c) then Some(x)
    else FirstInRow0(img, c, x + 1)
  }

  /** Length of the run of colour-c pixels in row 0 that starts at column x. */
  function RunInRow0(img: RgbImage, c: Color, x: nat): (run: nat)
    requires Decodable(img) && x <= img.width
    ensures x + run <= img.width
    ensures forall k :: x <= k < x + run ==> PixelIs(img, k, 0, c)
    ensures x + run < img.width ==> !PixelIs(img, x + run, 0, c)
    decreases img.width - x
  {
    if x == img.width || !PixelIs(img, x, 0, c) then 0
    else 1 + RunInRow0(img, c, x + 1)
  }

  /** The first row at or after y whose column-0 pixel has colour c. */
  function FirstInColumn0(img: RgbImage, c: Color, y: nat): (found: Option<nat>)
    requires img.Valid() && 0 < img.width && y <= img.height
    ensures found.Some? ==> y <= found.value < img.height && PixelIs(img, 0, found.value, c)
    ensures forall k :: y <= k < img.height && (found.None? || k < found.value) ==> !PixelIs(img, 0, k, c)
    decreases img.height - y
  {
    if y == img.height then None
    else if PixelIs(img, 0, y, c) then Some(y)
    else FirstInColumn0(img, c, y + 1)
  }

  /**
   * How many pixels of column 0, from row y down, have colour c; every
   * matching pixel counts, whether or not the matches are contiguous.
   */
  function CountInColumn0(img: RgbImage, c: Color, y: nat): (count: nat)
    requires img.Valid() && 0 < img.width && y <= img.height
    ensures count == 0 <==> FirstInColumn0(img, c, y).None?
    ensures FirstInColumn0(img, c, y).Some? ==> count <= img.height - FirstInColumn0(img, c, y).value
    decreases img.height - y
  {
    if y == img.height then 0
    else (if PixelIs(img, 0, y, c) then 1 else 0) + CountInColumn0(img, c, y + 1)
  }

  /**
   * The reference decoder: glyph width from the first green pixel of row 0,
   * padding from the magenta run after it, underline and strikeout from the
   * first red and blue pixels of column 0 and the number of such pixels.
   */
  function Decode(img: RgbImage): (r: Result<BitmapFont, DecodeError>)
    requires Decodable(img)
    ensures r.Ok? ==> r.value.img == img && r.value.Consistent()
  {
    match FirstInRow0(img, Green, 0)
    case None => Err(MissingGlyphWidth)
    case Some(gx) =>
      var averageAdvance := gx + 1;
      match FirstInColumn0(img, Red, 0)
      case None => Err(MissingUnderline)
      case Some(uy) =>
        match FirstInColumn0(img, Blue, 0)
        case None => Err(MissingStrikeout)
        case Some(sy) =>
          Ok(BitmapFont(
            img := img,
            atlasWidth := img.width,
            paddingWidth := RunInRow0(img, Magenta, averageAdvance),
            averageAdvance := averageAdvance,
            lineHeight := img.height,
            underlinePosition := img.height - uy,
            underlineThickness := CountInColumn0(img, Red, 0),
            strikeoutPosition := img.height - sy,
            strikeoutThickness := CountInColumn0(img, Blue, 0)))
  }

  /**
   * First loop of the marker scan: 1 + the column of the first green pixel
   * of row 0, or 0 when row 0 has none.
   */
  method ScanGlyphWidth(img: RgbImage) returns (averageAdvance: nat)
    requires Decodable(img)
    ensures averageAdvance == 0 <==> FirstInRow0(img, Green, 0).None?
    ensures averageAdvance != 0 ==> FirstInRow0(img, Green, 0) == Some(averageAdvance - 1)
  {
    averageAdvance := 0;
    for x := 0 to img.width
      invariant averageAdvance == 0
      invariant FirstInRow0(img, Green, 0) == FirstInRow0(img, Green, x)
    {
      PixelInImage(img.width, img.height, x, 0);
      if CheckPixelColor(img.data, img.width, x, 0, 0, 255, 0) {
        averageAdvance := x + 1;
        break;
      }
    }
  }

  /** Second loop: the number of magenta pixels in row 0 from `averageAdvance` on, up to the first other colour. */
  method ScanPadding(img: RgbImage, averageAdvance: nat) returns (paddingWidth: nat)
    requires Decodable(img) && averageAdvance <= img.width
    ensures paddingWidth == RunInRow0(img, Magenta, averageAdvance)
  {
    paddingWidth := 0;
    for x := averageAdvance to img.width
      invariant paddingWidth == x - averageAdvance
      invariant RunInRow0(img, Magenta, averageAdvance) == paddingWidth + RunInRow0(img, Magenta, x)
    {
      PixelInImage(img.width, img.height, x, 0);
      if !CheckPixelColor(img.data, img.width, x, 0, 255, 0, 255) {
        break;
      }
      paddingWidth := paddingWidth + 1;
    }
  }

  /**
   * Third and fourth loops (underline with red, strikeout with blue): the
   * distance from the bottom of the first colour-c pixel of column 0, or 0
   * when there is none, and the number of colour-c pixels in column 0.
   */
  method ScanColumn0(img: RgbImage, c: Color) returns (position: nat, thickness: nat)
    requires img.Valid() && 0 < img.width
    ensures position == 0 <==> FirstInColumn0(img, c, 0).None?
    ensures position != 0 ==> position <= img.height && FirstInColumn0(img, c, 0) == Some(img.height - position)
    ensures thickness == CountInColumn0(img, c, 0)
  {
    position, thickness := 0, 0;
    for y := 0 to img.height
      invariant position <= img.height
      invariant position == 0 ==> FirstInColumn0(img, c, 0) == FirstInColumn0(img, c, y)
      invariant position != 0 ==> FirstInColumn0(img, c, 0) == Some(img.height - position)
      invariant thickness + CountInColumn0(img, c, y) == CountInColumn0(img, c, 0)
    {
      PixelInImage(img.width, img.height, 0, y);
      if CheckPixelColor(img.data, img.width, 0, y, c.r, c.g, c.b) {
        if position == 0 {
          position := img.height - y;
        }
        thickness := thickness + 1;
      }
    }
  }

  /** The marker scan of `load_font`, as the backend runs it. */
  method DecodeAtlas(img: RgbImage) returns (r: Result<BitmapFont, DecodeError>)
    requires Decodable(img)
    ensures r == Decode(img)
  {
    var averageAdvance := ScanGlyphWidth(img);
    if averageAdvance == 0 {
      return Err(MissingGlyphWidth);
    }

    var paddingWidth := ScanPadding(img, averageAdvance);

    var underlinePosition, underlineThickness := ScanColumn0(img, Red);
    if underlinePosition == 0 {
      return Err(MissingUnderline);
    }

    var strikeoutPosition, strikeoutThickness := ScanColumn0(img, Blue);
    if strikeoutPosition == 0 {
      return Err(MissingStrikeout);
    }

    r := Ok(BitmapFont(
      img := img,
      atlasWidth := img.width,
      paddingWidth := paddingWidth,
      averageAdvance := averageAdvance,
      lineHeight := img.height,
      underlinePosition := underlinePosition,
      underlineThickness := underlineThickness,
      strikeoutPosition := strikeoutPosition,
      strikeoutThickness := strikeoutThickness));
  }

  /** The rows from y down whose column-0 pixel has colour c. */
  ghost function MatchingRows(img: RgbImage, c: Color, y: nat): set<nat>
    requires img.Valid() && 0 < img.width
  {
    set k: nat | y <= k < img.height && PixelIs(img, 0, k, c)
  }

  /** The column count is the number of matching pixels, contiguous or not. */
  lemma {:induction false} CountIsCardinality(img: RgbImage, c: Color, y: nat)
    requires img.Valid() && 0 < img.width && y <= img.height
    ensures CountInColumn0(img, c, y) == |MatchingRows(img, c, y)|
    decreases img.height - y
  {
    if y == img.height {
      assert MatchingRows(img, c, y) == {};
    } else {
      CountIsCardinality(img, c, y + 1);
      if PixelIs(img, 0, y, c) {
        assert MatchingRows(img, c, y) == MatchingRows(img, c, y + 1) + {y};
      } else {
        assert MatchingRows(img, c, y) == MatchingRows(img, c, y + 1);
      }
    }
  }

  /** A decoded font's advance, underline and strikeout point at their marker pixels. */
  lemma DecodedMarkers(font: BitmapFont)
    requires Decodable(font.img) && Decode(font.img) == Ok(font)
    ensures 1 <= font.averageAdvance <= font.img.width
    ensures PixelIs(font.img, font.averageAdvance - 1, 0, Green)
    ensures 1 <= font.underlinePosition <= font.img.height
    ensures PixelIs(font.img, 0, font.img.height - font.underlinePosition, Red)
    ensures 1 <= font.strikeoutPosition <= font.img.height
    ensures PixelIs(font.img, 0, font.img.height - font.strikeoutPosition, Blue)
  {
    var img := font.img;
    assert FirstInRow0(img, Green, 0) == Some(font.averageAdvance - 1);
    assert FirstInColumn0(img, Red, 0) == Some(img.height - font.underlinePosition);
    assert FirstInColumn0(img, Blue, 0) == Some(img.height - font.strikeoutPosition);
  }

  /** Row 0 has a colour-c pixel exactly when the row scan finds one. */
  lemma RowHasColor(img: RgbImage, c: Color)
    requires Decodable(img)
    ensures FirstInRow0(img, c, 0).Some? <==> exists x: nat :: x < img.width && PixelIs(img, x, 0, c)
  {
    if FirstInRow0(img, c, 0).Some? {
      var x := FirstInRow0(img, c, 0).value;
      assert x < img.width && PixelIs(img, x, 0, c);
    }
  }

  /** Column 0 has a colour-c pixel exactly when the column scan finds one. */
  lemma ColumnHasColor(img: RgbImage, c: Color)
    requires img.Valid() && 0 < img.width
    ensures FirstInColumn0(img, c, 0).Some? <==> exists y: nat :: y < img.height && PixelIs(img, 0, y, c)
  {
    if FirstInColumn0(img, c, 0).Some? {
      var y := FirstInColumn0(img, c, 0).value;
      assert y < img.height && PixelIs(img, 0, y, c);
    }
  }

  /**
   * Glyph width: decoding fails with the glyph-width error exactly when row 0
   * has no green pixel; otherwise the advance is one past the first green pixel.
   */
  lemma GlyphWidthMarker(img: RgbImage)
    requires Decodable(img)
    ensures Decode(img) == Err(MissingGlyphWidth) <==> forall x: nat :: x < img.width ==> !PixelIs(img, x, 0, Green)
    ensures Decode(img).Ok? ==>
      var font := Decode(img).value;
      && 1 <= font.averageAdvance <= img.width
      && PixelIs(img, font.averageAdvance - 1, 0, Green)
      && forall x: nat :: x < font.averageAdvance - 1 ==> !PixelIs(img, x, 0, Green)
  {
  }

  /**
   * Padding: the magenta run in row 0 starting right after the glyph-width
   * marker, ending at the first other colour or at the end of the row.
   */
  lemma PaddingMarker(img: RgbImage)
    requires Decodable(img) && Decode(img).Ok?
    ensures
      var font := Decode(img).value;
      && font.averageAdvance + font.paddingWidth <= img.width
      && (forall x: nat :: font.averageAdvance <= x < font.averageAdvance + font.paddingWidth ==> PixelIs(img, x, 0, Magenta))
      && (font.averageAdvance + font.paddingWidth < img.width ==>
            !PixelIs(img, font.averageAdvance + font.paddingWidth, 0, Magenta))
  {
  }

  /**
   * Underline: with a glyph-width marker present, decoding fails with the
   * underline error exactly when column 0 has no red pixel; otherwise the
   * position is the distance from the bottom of the first red pixel and the
   * thickness is the number of red pixels in column 0.
   */
  lemma UnderlineMarker(img: RgbImage)
    requires Decodable(img)
    ensures Decode(img) == Err(MissingUnderline) <==>
      && (exists x: nat :: x < img.width && PixelIs(img, x, 0, Green))
      && (forall y: nat :: y < img.height ==> !PixelIs(img, 0, y, Red))
    ensures Decode(img).Ok? ==>
      var font := Decode(img).value;
      && 1 <= font.underlinePosition <= img.height
      && PixelIs(img, 0, img.height - font.underlinePosition, Red)
      && (forall y: nat :: y < img.height - font.underlinePosition ==> !PixelIs(img, 0, y, Red))
      && font.underlineThickness == |MatchingRows(img, Red, 0)|
      && font.underlineThickness <= font.underlinePosition
  {
    RowHasColor(img, Green);
    if FirstInRow0(img, Green, 0).Some? {
      ColumnHasColor(img, Red);
      if Decode(img).Ok? {
        CountIsCardinality(img, Red, 0);
      }
    }
  }

  /**
   * Strikeout: the same rule with blue pixels; it is reached only when the
   * glyph-width and underline markers are present.
   */
  lemma StrikeoutMarker(img: RgbImage)
    requires Decodable(img)
    ensures Decode(img) == Err(MissingStrikeout) <==>
      && (exists x: nat :: x < img.width && PixelIs(img, x, 0, Green))
      && (exists y: nat :: y < img.height && PixelIs(img, 0, y, Red))
      && (forall y: nat :: y < img.height ==> !PixelIs(img, 0, y, Blue))
    ensures Decode(img).Ok? ==>
      var font := Decode(img).value;
      && 1 <= font.strikeoutPosition <= img.height
      && PixelIs(img, 0, img.height - font.strikeoutPosition, Blue)
      && (forall y: nat :: y < img.height - font.strikeoutPosition ==> !PixelIs(img, 0, y, Blue))
      && font.strikeoutThickness == |MatchingRows(img, Blue, 0)|
      && font.strikeoutThickness <= font.strikeoutPosition
  {
    RowHasColor(img, Green);
    if FirstInRow0(img, Green, 0).Some? {
      ColumnHasColor(img, Red);
      if FirstInColumn0(img, Red, 0).Some? {
        ColumnHasColor(img, Blue);
        if Decode(img).Ok? {
          CountIsCardinality(img, Blue, 0);
        }
      }
    }
  }

  /**
   * A 2 x 4 atlas: green then magenta in row 0; in column 0, red at rows 1
   * and 3 with blue in between, so the red pixels are not contiguous.
   */
  function ScatteredAtlas(): (img: RgbImage)
    ensures Decodable(img)
  {
    RgbImage(2, 4, [
      0, 255, 0,  255, 0, 255,
      255, 0, 0,  0, 0, 0,
      0, 0, 255,  0, 0, 0,
      255, 0, 0,  0, 0, 0])
  }

  /** The marker pixels of the scattered atlas. */
  lemma ScatteredAtlasColors()
    ensures PixelAt(ScatteredAtlas().data, 2, 0, 0) == Green
    ensures PixelAt(ScatteredAtlas().data, 2, 1, 0) == Magenta
    ensures PixelAt(ScatteredAtlas().data, 2, 0, 1) == Red
    ensures PixelAt(ScatteredAtlas().data, 2, 0, 2) == Blue
    ensures PixelAt(ScatteredAtlas().data, 2, 0, 3) == Red
  {
  }

  /** Row 0 of the scattered atlas: glyph-width marker at column 0, one padding pixel. */
  lemma ScatteredAtlasRow0()
    ensures FirstInRow0(ScatteredAtlas(), Green, 0) == Some(0)
    ensures RunInRow0(ScatteredAtlas(), Magenta, 1) == 1
  {
    ScatteredAtlasColors();
  }

  /** Column 0 of the scattered atlas: red at rows 1 and 3, blue at row 2. */
  lemma ScatteredAtlasColumn0()
    ensures FirstInColumn0(ScatteredAtlas(), Red, 0) == Some(1)
    ensures CountInColumn0(ScatteredAtlas(), Red, 0) == 2
    ensures FirstInColumn0(ScatteredAtlas(), Blue, 0) == Some(2)
    ensures CountInColumn0(ScatteredAtlas(), Blue, 0) == 1
  {
    ScatteredAtlasColors();
  }

  /** Both red pixels of the scattered atlas count towards the underline thickness. */
  lemma ScatteredUnderlineExample()
    ensures Decode(ScatteredAtlas()).Ok?
    ensures
      var font := Decode(ScatteredAtlas()).value;
      && font.averageAdvance == 1 && font.paddingWidth == 1
      && font.underlinePosition == 3 && font.underlineThickness == 2
      && font.strikeoutPosition == 2 && font.strikeoutThickness == 1
  {
    ScatteredAtlasRow0();
    ScatteredAtlasColumn0();
  }
}
