# Bitmap-atlas font backend, modelled in Dafny

This project models the bitmap font backend of the font rasterization crate
(`src/bitmap/mod.rs`). That backend loads a font from one RGB image, the
atlas. The atlas holds a fixed-stride row of glyph cells. Its row 0 and
column 0 carry sentinel pixels that encode the font's geometry. The backend
then answers metrics queries and glyph requests from the loaded atlas.

The model has four modules:

- `Types` (`types.dfy`): the crate-level types the backend uses. These are
  bytes, `Result`/`Option`, font handles (`FontKey`), descriptors
  (`FontDesc`), the error kinds, `Metrics`, `GlyphKey` and
  `RasterizedGlyph`.
- `Atlas` (`atlas.dfy`): `check_pixel_color` and the marker scan of
  `load_font`. `Decode` is a recursive reference definition of what the scan
  computes. `DecodeAtlas` is the scan as the source runs it: loops, early
  exits and counters. It is proved equal to `Decode`. Lemmas then state what
  each decoded value means in terms of the atlas pixels.
- `Glyph` (`glyph.dfy`): the copy loop of `rasterize_glyph`. It is proved to
  produce, pixel by pixel, the character's cell of the atlas.
- `Registry` (`registry.dfy`): the `BitmapRasterizer` class. It holds the
  `fonts` and `keys` maps and a handle counter. Its methods are loading, font
  lookup, metrics and glyph requests. Its invariant says every stored font is
  the decoding of its own atlas.

Behaviour of the code that a reader of the atlas format might not expect:

- The padding run after the glyph-width marker is counted over magenta
  pixels `(255, 0, 255)`, not green ones.
- Underline and strikeout thickness count every red or blue pixel of column
  0, whether or not they are contiguous. `ScatteredUnderlineExample` decodes
  an atlas whose two red pixels are separated by a blue one; the thickness
  is 2.
- The `keys` map is written on every successful load and never read. A
  descriptor loaded twice is decoded twice and gets a second handle; the
  first font stays loaded under its old handle (`LoadFont`'s last ensures).
- The glyph copy covers rows 0 to height - 1 of the character's cell and
  skips no row.

## Model

| member | source | states |
|---|---|---|
| `Atlas.CheckPixelColor` | src/bitmap/mod.rs:204-208 | true exactly when pixel (x, y), the three bytes from `(x + y*width)*3`, has colour `(r, g, b)`; callers must keep that index + 2 inside the buffer |
| `Atlas.FirstInRow0` | src/bitmap/mod.rs:119-125 | the column found is the first one at or after the start whose row-0 pixel has the colour; none found means no pixel of that colour in the rest of the row |
| `Atlas.RunInRow0` | src/bitmap/mod.rs:131-138 | the run fits in the row, every pixel in it has the colour, and it stops at the first other pixel or at the end of the row |
| `Atlas.FirstInColumn0` | src/bitmap/mod.rs:142-147 | the row found is the first one whose column-0 pixel has the colour; none found means no such pixel below the start row |
| `Atlas.CountInColumn0` | src/bitmap/mod.rs:142-150 | the count is zero exactly when no pixel matches, and it is at most the number of rows from the first match to the bottom |
| `Atlas.CountIsCardinality` | src/bitmap/mod.rs:142-150 | the count equals the number of matching pixels of column 0, contiguous or not |
| `Atlas.Decode` | src/bitmap/mod.rs:114-170 | a successful decode keeps the whole atlas and has advance >= 1, advance + padding <= width, line height = image height, and 1 <= thickness <= position <= height for underline and strikeout |
| `Atlas.ScanGlyphWidth` | src/bitmap/mod.rs:119-125 | the first loop returns 0 exactly when row 0 has no green pixel, and otherwise 1 + the first green column |
| `Atlas.ScanPadding` | src/bitmap/mod.rs:131-138 | the second loop returns the length of the magenta run in row 0 that starts at the advance |
| `Atlas.ScanColumn0` | src/bitmap/mod.rs:140-166 | the underline and strikeout loops return position 0 exactly when column 0 has no pixel of the colour, else height minus the first such row, and the number of such pixels as thickness |
| `Atlas.DecodeAtlas` | src/bitmap/mod.rs:114-170 | the marker scan with its loops, breaks and counters returns exactly the reference decoding, including which marker error comes first |
| `Atlas.GlyphWidthMarker` | src/bitmap/mod.rs:119-129 | the glyph-width error happens exactly when row 0 has no green pixel; otherwise the advance is in 1..width, pixel (advance-1, 0) is green and no pixel left of it is |
| `Atlas.PaddingMarker` | src/bitmap/mod.rs:131-138 | the padding pixels right after the glyph-width marker are all magenta, the run ends at a non-magenta pixel or the row's end, and advance + padding <= width |
| `Atlas.UnderlineMarker` | src/bitmap/mod.rs:140-154 | with a glyph-width marker present, the underline error happens exactly when column 0 has no red pixel; otherwise the position points at the first red pixel, no red pixel lies above it, and the thickness is the number of red pixels, at most the position |
| `Atlas.StrikeoutMarker` | src/bitmap/mod.rs:156-170 | the same for blue and the strikeout error, which is reached only when the glyph-width and underline markers are present |
| `Atlas.DecodedMarkers` | src/bitmap/mod.rs:119-170 | in a decoded font, pixel (advance-1, 0) is green and the pixels of column 0 at height minus the underline and strikeout positions are red and blue |
| `Atlas.ScatteredUnderlineExample` | src/bitmap/mod.rs:140-150 | a 2 x 4 atlas with red at rows 1 and 3 of column 0 decodes to underline position 3 and thickness 2, strikeout position 2 and thickness 1, advance 1, padding 1 |
| `Glyph.CellByteInBounds` | src/bitmap/mod.rs:53-58 | when the cell's last byte is inside the atlas, every byte the copy loop reads is |
| `Glyph.CellRows` | src/bitmap/mod.rs:53-60 | the first n rows of the cell, packed, are `averageAdvance * n * 3` bytes |
| `Glyph.CellRowsAt` | src/bitmap/mod.rs:53-60 | byte c of pixel (x, y) of the packed cell is byte c of atlas pixel (xOffset + x, y) |
| `Glyph.ExtractGlyph` | src/bitmap/mod.rs:47-73 | the glyph is `averageAdvance * lineHeight * 3` bytes, byte `(y*averageAdvance + x)*3 + c` is atlas byte `(x + xOffset + y*width)*3 + c` with `xOffset = (averageAdvance + padding) * (code - 33 + 1)`, for every row 0 to lineHeight - 1 of the cell; width = advance, height = top = line height, left 0, advance (0, 0) |
| `Registry.BitmapRasterizer.constructor` | src/bitmap/mod.rs:82-87 | a new registry has no fonts and no descriptors |
| `Registry.BitmapRasterizer.GetLoadedFont` | src/bitmap/mod.rs:76-78 | succeeds exactly for a loaded handle, with that handle's font; otherwise the unknown-key error |
| `Registry.BitmapRasterizer.FontMetrics` | src/bitmap/mod.rs:89-101 | fails with the unknown-key error exactly for a handle that is not loaded; otherwise reports the stored geometry with descent 0 |
| `Registry.BitmapRasterizer.LoadFont` | src/bitmap/mod.rs:103-187 | open and decode failures give `FontNotFound` and `PlatformError`, a missing marker gives `PlatformError` with that marker's message, a decoded atlas that has all three markers always loads, and every failure leaves both maps unchanged; a success returns a handle not in use, maps it to the decoded font, maps the descriptor to it, and changes nothing else; a repeated descriptor gets a new handle and the old font stays |
| `Registry.BitmapRasterizer.GetGlyph` | src/bitmap/mod.rs:34-74 | a character below '!' or an unknown handle gives the unknown-key error; otherwise the glyph is the character's cell, copied as `ExtractGlyph` states |
| `Registry.StoredMetrics` | src/bitmap/mod.rs:89-101 | for every loaded font the metrics succeed, descent is 0, line height is the atlas height, the advance ends at a green pixel of row 0, and each of underline and strikeout has 1 <= thickness <= position <= line height and points at a red or blue pixel of column 0 |

`get_glyph` (src/bitmap/mod.rs:189-194) only forwards to `rasterize_glyph`;
`GetGlyph` models both.

## Left out

- Opening and decoding the image file (src/bitmap/mod.rs:104-112) is file I/O
  through an external image library. `LoadFont` takes its outcome as an
  `ImageSource` parameter: open failed, decode failed, or an RGB image.
- LoadFont: `FontKey::next()` is a process-wide counter of 32-bit tokens. It
  is replaced by the registry's own unbounded `nextToken`, and only freshness
  of the issued handle is promised; wrap-around after 2^32 loads is not
  modelled.
- FontMetrics: the `f32`/`f64` conversions of the metrics are not modelled;
  the values stay natural numbers.
- ExtractGlyph: the `as i32` casts of width, height and top are not
  modelled; an atlas wider or taller than 2^31 - 1 pixels would truncate
  them.
- GetGlyph: the source does not bounds-check the cell against the atlas and
  panics when the copy reads past the buffer. The model requires
  `GlyphReadable` (the cell's last byte is inside the atlas) instead of
  modelling the panic.
- DecodeAtlas: an image with columns but no rows would make the source
  index past its empty buffer. The model requires `Decodable` (width 0 or at
  least one row) instead of modelling the panic.
- Integer arithmetic is unbounded. On a 64-bit target the source's `usize`
  index arithmetic cannot wrap for 32-bit image dimensions and a buffer that
  fits in memory.
- GetGlyph: on a 32-bit target the cell offset
  `(averageAdvance + padding) * (code - 33 + 1)` can exceed 2^32 for high
  code points (a stride of 4097 and U+10FFFF already do). Debug builds then
  panic and release builds wrap. The model does not capture this:
  `GlyphReadable` and `CellFits` are computed over unbounded integers and so
  exclude those requests instead of modelling the wrapped offset.
- `kerning` always returns (0, 0), `update_dpr` does nothing, and `new`
  ignores its device-pixel ratio. The `Size` arguments of `load_font` and
  `metrics` are ignored. None of these is modelled beyond the empty
  registry the constructor builds.
- The `Rasterize` trait plumbing is left out. The descriptor type is not
  part of this model; `FontDesc` has the file name the backend opens and a
  style that stands opaquely for the rest of the descriptor. Like the
  source, the model keys `keys` and `FontNotFound` by the whole descriptor,
  so loads of one file under two styles get two `keys` entries.
