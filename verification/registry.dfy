/**
 * The font registry of the bitmap font backend (`BitmapRasterizer`): the
 * loaded fonts by handle, the handle last issued for each descriptor, and the
 * queries answered from them.
 */
module Registry {
  import opened Types
  import opened Atlas
  import opened Glyph

  /**
   * What the image library made of the font file: it could not be opened,
   * it could not be decoded, or it decoded to an RGB image.
   */
  datatype ImageSource = OpenFailed | DecodeFailed | Decoded(img: RgbImage)

  class BitmapRasterizer {
    /** Loaded fonts by handle. */
    var fonts: map<FontKey, BitmapFont>
    /** The handle issued by the latest load of each descriptor; written, never read. */
    var keys: map<FontDesc, FontKey>
    /** Token of the next handle to issue. */
    var nextToken: nat

    /**
     * Every handle in use was issued before `nextToken`, every descriptor
     * maps to a loaded font, and every loaded font is the decoding of its
     * own atlas.
     */
    ghost predicate Valid()
      reads this
    {
      && (forall key | key in fonts :: key.token < nextToken)
      && (forall desc | desc in keys :: keys[desc] in fonts)
      && (forall key | key in fonts :: Decodable(fonts[key].img) && Decode(fonts[key].img) == Ok(fonts[key]))
    }

    /** An empty registry. */
    constructor ()
      ensures Valid()
      ensures fonts == map[] && keys == map[]
    {
      fonts := map[];
      keys := map[];
      nextToken := 0;
    }

    /** The loaded font behind `key`, or the unknown-key error. */
    function GetLoadedFont(key: FontKey): (r: Result<BitmapFont, Error>)
      reads this
      ensures r.Ok? <==> key in fonts
      ensures r.Ok? ==> r.value == fonts[key]
      ensures r.Err? ==> r.error == UnknownFontKey
    {
      if key in fonts then Ok(fonts[key]) else Err(UnknownFontKey)
    }

    /** The metrics of the font behind `key`: its stored geometry, with no descent. */
    function FontMetrics(key: FontKey): (r: Result<Metrics, Error>)
      reads this
      ensures r.Err? <==> key !in fonts
      ensures r.Err? ==> r.error == UnknownFontKey
      ensures r.Ok? ==>
        && r.value.descent == 0
        && r.value.averageAdvance == fonts[key].averageAdvance
        && r.value.lineHeight == fonts[key].lineHeight
        && r.value.underlinePosition == fonts[key].underlinePosition
        && r.value.underlineThickness == fonts[key].underlineThickness
        && r.value.strikeoutPosition == fonts[key].strikeoutPosition
        && r.value.strikeoutThickness == fonts[key].strikeoutThickness
    {
      match GetLoadedFont(key)
      case Err(e) => Err(e)
      case Ok(font) =>
        Ok(Metrics(
          descent := 0,
          averageAdvance := font.averageAdvance,
          lineHeight := font.lineHeight,
          underlinePosition := font.underlinePosition,
          underlineThickness := font.underlineThickness,
          strikeoutPosition := font.strikeoutPosition,
          strikeoutThickness := font.strikeoutThickness))
    }

    /**
     * Loads a font from what the image library made of `desc`'s file: on
     * success a fresh handle is issued and both maps gain an entry; on any
     * failure nothing changes. A descriptor loaded before is decoded again
     * and gets a new handle; the font under its old handle stays loaded.
     */
    method LoadFont(desc: FontDesc, source: ImageSource) returns (r: Result<FontKey, Error>)
      requires Valid()
      requires source.Decoded? ==> Decodable(source.img)
      modifies this
      ensures Valid()
      ensures source.OpenFailed? ==> r == Err(FontNotFound(desc))
      ensures source.DecodeFailed? ==> r == Err(PlatformError("Failed to decode font"))
      ensures source.Decoded? && Decode(source.img).Err? ==>
        r == Err(PlatformError(Decode(source.img).error.Message()))
      ensures r.Err? ==> fonts == old(fonts) && keys == old(keys)
      ensures r.Ok? <==> source.Decoded? && Decode(source.img).Ok?
      ensures r.Ok? ==> r.value !in old(fonts)
      ensures r.Ok? ==> fonts == old(fonts)[r.value := Decode(source.img).value]
      ensures r.Ok? ==> keys == old(keys)[desc := r.value]
      ensures r.Ok? && desc in old(keys) ==> r.value != old(keys)[desc] && old(keys)[desc] in fonts
    {
      match source
      case OpenFailed =>
        return Err(FontNotFound(desc));
      case DecodeFailed =>
        return Err(PlatformError("Failed to decode font"));
      case Decoded(img) =>
        var decoded := DecodeAtlas(img);
        if decoded.Err? {
          return Err(PlatformError(decoded.error.Message()));
        }
        var key := FontKey(nextToken);
        nextToken := nextToken + 1;
        keys := keys[desc := key];
        fonts := fonts[key := decoded.value];
        r := Ok(key);
    }

    /**
     * A glyph request whose copy stays inside the atlas: the extractor does
     * not check this, and a cell past the end of the atlas makes it index
     * out of bounds.
     */
    predicate GlyphReadable(glyph: GlyphKey)
      reads this
    {
      || glyph.character as nat < FirstCharacter
      || glyph.fontKey !in fonts
      || (fonts[glyph.fontKey].Consistent() &&
          CellFits(fonts[glyph.fontKey], XOffset(fonts[glyph.fontKey], glyph.character as nat)))
    }

    /**
     * The pixels of one character: a character below '!' or an unknown
     * handle is the unknown-key error; otherwise the character's cell,
     * copied from the font's atlas.
     */
    method GetGlyph(glyph: GlyphKey) returns (r: Result<RasterizedGlyph, Error>)
      requires GlyphReadable(glyph)
      ensures glyph.character as nat < FirstCharacter ==> r == Err(UnknownFontKey)
      ensures glyph.fontKey !in fonts ==> r == Err(UnknownFontKey)
      ensures FirstCharacter <= glyph.character as nat && glyph.fontKey in fonts ==>
        var font := fonts[glyph.fontKey];
        && r.Ok?
        && r.value.character == glyph.character
        && r.value.width == font.averageAdvance
        && r.value.height == font.lineHeight
        && r.value.top == font.lineHeight
        && r.value.left == 0
        && r.value.advance == (0, 0)
        && r.value.buffer.Rgb?
        && IsCellCopy(r.value.buffer.bytes, font, XOffset(font, glyph.character as nat))
    {
      if glyph.character as nat < FirstCharacter {
        return Err(UnknownFontKey);
      }
      var loaded := GetLoadedFont(glyph.fontKey);
      if loaded.Err? {
        return Err(loaded.error);
      }
      var rasterized := ExtractGlyph(loaded.value, glyph.character);
      r := Ok(rasterized);
    }
  }

  /**
   * The metrics of any loaded font describe its atlas: the advance ends at
   * the first green pixel of row 0, the underline and strikeout positions
   * point at the first red and blue pixels of column 0, each thickness is at
   * least one and at most its position, and the descent is zero.
   */
  lemma StoredMetrics(registry: BitmapRasterizer, key: FontKey)
    requires registry.Valid() && key in registry.fonts
    ensures registry.FontMetrics(key).Ok?
    ensures
      var m := registry.FontMetrics(key).value;
      var img := registry.fonts[key].img;
      && m.descent == 0
      && m.lineHeight == img.height
      && 1 <= m.averageAdvance <= img.width
      && PixelIs(img, m.averageAdvance - 1, 0, Green)
      && 1 <= m.underlineThickness <= m.underlinePosition <= m.lineHeight
      && PixelIs(img, 0, img.height - m.underlinePosition, Red)
      && 1 <= m.strikeoutThickness <= m.strikeoutPosition <= m.lineHeight
      && PixelIs(img, 0, img.height - m.strikeoutPosition, Blue)
  {
    var font := registry.fonts[key];
    var m := registry.FontMetrics(key).value;
    assert Decodable(font.img) && Decode(font.img) == Ok(font);
    DecodedMarkers(font);
    assert m.averageAdvance == font.averageAdvance;
    assert m.underlinePosition == font.underlinePosition;
    assert m.strikeoutPosition == font.strikeoutPosition;
  }
}
