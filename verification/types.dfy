/**
 * Types the bitmap backend shares with the rest of the font crate: bytes,
 * the crate's error kinds, font handles and descriptors, metrics and the
 * rasterized glyph handed back to the renderer.
 */
module Types {

  /** An 8-bit unsigned value, as stored in an RGB pixel buffer. */
  type Byte = b: int | 0 <= b < 256

  datatype Option<+T> = None | Some(value: T)

  datatype Result<+T, +E> = Ok(value: T) | Err(error: E)

  /**
   * Opaque font handle. The crate hands out increasing tokens; only
   * freshness matters to the backend.
   */
  datatype FontKey = FontKey(token: nat)

  /**
   * A font request. The bitmap backend opens the file `name`; the rest of
   * the descriptor (its style) is only compared, as part of the `keys` map's
   * key and of the not-found error, so it stands here as an opaque string.
   */
  datatype FontDesc = FontDesc(name: string, style: string)

  /** The error kinds the bitmap backend can return. */
  datatype Error =
    | FontNotFound(desc: FontDesc)
    | PlatformError(message: string)
    | UnknownFontKey

  /** A glyph request: which character, in which loaded font. */
  datatype GlyphKey = GlyphKey(character: char, fontKey: FontKey)

  /** Font-wide metrics reported to the renderer, all in pixels. */
  datatype Metrics = Metrics(
    descent: int,
    averageAdvance: nat,
    lineHeight: nat,
    underlinePosition: nat,
    underlineThickness: nat,
    strikeoutPosition: nat,
    strikeoutThickness: nat)

  /** Pixel data of one rasterized glyph: packed RGB or RGBA bytes. */
  datatype BitmapBuffer = Rgb(bytes: seq<Byte>) | Rgba(bytes: seq<Byte>)

  datatype RasterizedGlyph = RasterizedGlyph(
    character: char,
    width: int,
    height: int,
    top: int,
    left: int,
    advance: (int, int),
    buffer: BitmapBuffer)
}
