# Slick2D: distance-field font effect and PNG texture buffer, modelled in Dafny

This project models two pieces of the Slick2D game library and proves properties of them.

**`DistanceFieldEffect`** is a font effect. It turns a large raster of a glyph into a small signed
distance field, following the alpha-tested magnification technique described by Chris Green
(SIGGRAPH 2007). The pipeline has four steps:

- Each input pixel is classified "inside" when bit 7 of its red, green or blue channel is set.
- For every `downscale` x `downscale` block, the centre pixel is the sample. The effect searches a
  square window of radius `downscale * spread` around it, clamped to the image. It looks for the
  nearest pixel of the other class, by integer squared distance.
- That distance is mapped into [0, 1] around 0.5: above 0.5 inside, below 0.5 outside.
- The value is stored, truncated to 8 bits, as the alpha of a fixed fill colour.

The effect's parameters are `color`, `spread` and `downscale`. The setters clamp `spread` and
`downscale` to at least 1. A name-keyed property list reads and writes the parameters.

**`PNGImageData.loadImage`** is modelled from the point after the PNG decoder has run. It does the
following:

- It grows the texture to powers of two (`get2Fold`).
- It maps the decoder's format to a texture format.
- It copies image edges into the padding of the scratch buffer, in place.
- When alpha is forced, or a transparent colour is given, it widens a format without alpha (RGB,
  GRAY) by one alpha byte per pixel.

The model is in three modules:

- `SignedDistance` (`signed_distance.dfy`) holds the value-level definitions and their lemmas:
  - the inside test and the squared distance;
  - the clamped window;
  - the nearest-opposite search, as a recursive minimum with its characterisation;
  - the exact distance value and its 8-bit quantisation;
  - ARGB packing.
- `FontEffects` (`font_effects.dfy`) holds the class `DistanceFieldEffect`. Its fields and setters
  are there, and so is the property list. The search and the three passes of `process` are
  imperative loops over 2-D arrays, each proved against the functions of `SignedDistance`.
- `PngImage` (`png_image_data.dfy`) holds the class `PngImageData` with the `get2Fold` loop and
  `loadImage`, plus the byte conversion and the format mapping. The two padding passes are in-place
  array loops, each proved against a function of the old buffer. The widening pass fills a freshly
  allocated buffer and is proved equal to a function of the padded one.

Three behaviours are modelled as the code is written, though a reader might expect otherwise:

- **Vertical padding copies only part of a row.** The code copies bytes `x + i` for pixel `x`, not
  `x * perPixel + i`. So it copies only the first `texWidth + perPixel - 1` bytes of a row into the
  last texture row and into the row below the image. That is the whole row only when there is one
  byte per pixel (`CopiedSpan`, `RowsPaddedBytes`).
- **The widening alpha test is only right for square textures.** The loops visit cell
  `x * texHeight + y` and give it alpha 255 when `x < height && y < width`. For a square texture this
  marks exactly the image's pixels (`WidenedAlphaMarksImageWhenSquare`). For a texture wider than it
  is high it does not (`WidenedAlphaMissesImageWhenNotSquare`).
- **The transparent-colour keying pass never runs.** A transparent colour forces the widening, and
  the widening leaves a format with alpha, so the code after it never executes. `LoadImage` proves
  this.

## Model

Source paths are relative to the repository root.

| member | source | states |
|---|---|---|
| SignedDistance.Inside | trunk/Slick/src/org/newdawn/slick/font/effects/DistanceFieldEffect.java:94-95 | a pixel is inside exactly when its red, green or blue channel is at least 128 |
| SignedDistance.SquareDist | trunk/Slick/src/org/newdawn/slick/font/effects/DistanceFieldEffect.java:70-75 | the squared distance is a natural number, and zero exactly when the two points coincide |
| SignedDistance.SquareDistSymmetric | trunk/Slick/src/org/newdawn/slick/font/effects/DistanceFieldEffect.java:70-75 | squareDist is symmetric in its two points |
| SignedDistance.DiskInBox | trunk/Slick/src/org/newdawn/slick/font/effects/DistanceFieldEffect.java:136-152 | a cell within the squared radius lies in the radius box, so the scan window misses no candidate |
| SignedDistance.Window | trunk/Slick/src/org/newdawn/slick/font/effects/DistanceFieldEffect.java:137-140 | the clamped bounds satisfy 0 <= start <= point <= end <= size - 1, so every access is in bounds |
| SignedDistance.WindowSpan | trunk/Slick/src/org/newdawn/slick/font/effects/DistanceFieldEffect.java:137-140 | an in-bounds coordinate is in the window if and only if it is within the radius of the point |
| SignedDistance.ColumnMin | trunk/Slick/src/org/newdawn/slick/font/effects/DistanceFieldEffect.java:147-157 | the inner loop's running minimum over one column, starting at the squared radius and never above it; ColumnMinIsLeast characterises it |
| SignedDistance.GridMin | trunk/Slick/src/org/newdawn/slick/font/effects/DistanceFieldEffect.java:145-158 | the running minimum over the columns scanned, never above the squared radius; GridMinIsLeast characterises it |
| SignedDistance.ColumnMinIsLeast | trunk/Slick/src/org/newdawn/slick/font/effects/DistanceFieldEffect.java:147-157 | the running minimum over one column is no larger than any cell's cost, and is the squared radius or the cost of some cell |
| SignedDistance.GridMinIsLeast | trunk/Slick/src/org/newdawn/slick/font/effects/DistanceFieldEffect.java:145-158 | the same over all columns scanned so far |
| SignedDistance.NearestIsUnique | trunk/Slick/src/org/newdawn/slick/font/effects/DistanceFieldEffect.java:142-158 | "least cost and attained or the squared radius" determines one value |
| SignedDistance.Closest | trunk/Slick/src/org/newdawn/slick/font/effects/DistanceFieldEffect.java:142-158 | closestSquareDist after the loops, at most the squared radius; ClosestIsMinimum gives its full meaning (the minimum over opposite-class cells within the radius, or the squared radius) |
| SignedDistance.ClosestIsNearest | trunk/Slick/src/org/newdawn/slick/font/effects/DistanceFieldEffect.java:142-158 | the specification of closestSquareDist satisfies that characterisation |
| SignedDistance.ClosestIsMinimum | trunk/Slick/src/org/newdawn/slick/font/effects/DistanceFieldEffect.java:142-158 | closestSquareDist is at most the squared radius; it is the minimum squared distance over opposite-class cells within it, attained by one of them; it is the squared radius when no such cell exists |
| SignedDistance.ClosestIsPositive | trunk/Slick/src/org/newdawn/slick/font/effects/DistanceFieldEffect.java:134-156 | with radius at least 1 the distance found is at least 1, since the sample cell is of its own class |
| SignedDistance.SampleInRange | trunk/Slick/src/org/newdawn/slick/font/effects/DistanceFieldEffect.java:99-105 | the block centre x * downscale + downscale / 2 lies inside the input for every output coordinate |
| SignedDistance.SampleField | trunk/Slick/src/org/newdawn/slick/font/effects/DistanceFieldEffect.java:99-105 | the distance stored for an output pixel has radius at least 1 and squared distance between 1 and the squared radius, so its value is strictly on its class's side of 0.5 |
| SignedDistance.RootBounds | trunk/Slick/src/org/newdawn/slick/font/effects/DistanceFieldEffect.java:160 | the root of closestSquareDist lies in [0, maxDistance]; it is 0 or maxDistance exactly when the square is |
| SignedDistance.SignedValue | trunk/Slick/src/org/newdawn/slick/font/effects/DistanceFieldEffect.java:160-168 | the float findSignedDistance returns, 0.5 +- 0.5 * min(1, root / maxDistance): for a non-negative root it is in [0, 1], at least 0.5 inside and at most 0.5 outside; SignedValueRange gives the strict sides and saturation |
| SignedDistance.SignedValueRange | trunk/Slick/src/org/newdawn/slick/font/effects/DistanceFieldEffect.java:160-168 | the value is in [0, 1]; inside it is above 0.5 iff the distance is positive, outside below 0.5 iff positive; at the full radius it is 1.0 inside and 0.0 outside |
| SignedDistance.ISqrt | trunk/Slick/src/org/newdawn/slick/font/effects/DistanceFieldEffect.java:160 | the floor square root r satisfies r*r <= n < (r+1)*(r+1) |
| SignedDistance.CeilSqrt | trunk/Slick/src/org/newdawn/slick/font/effects/DistanceFieldEffect.java:160 | the ceiling square root r satisfies n <= r*r and (r-1)*(r-1) < n |
| SignedDistance.Alpha | trunk/Slick/src/org/newdawn/slick/font/effects/DistanceFieldEffect.java:113-114 | the alpha of a valid distance lies in [0, 255] |
| SignedDistance.AlphaIsTruncation | trunk/Slick/src/org/newdawn/slick/font/effects/DistanceFieldEffect.java:113-114 | Alpha is the truncating cast (int)(d * 255) of the exact value: Alpha <= 255 * value < Alpha + 1 |
| SignedDistance.AlphaSaturates | trunk/Slick/src/org/newdawn/slick/font/effects/DistanceFieldEffect.java:160-168 | at the full radius the alpha is 255 inside and 0 outside |
| SignedDistance.AlphaSide | trunk/Slick/src/org/newdawn/slick/font/effects/DistanceFieldEffect.java:160-168 | an inside sample gets alpha at least 127, an outside one at most 127 |
| SignedDistance.Pack | trunk/Slick/src/org/newdawn/slick/font/effects/DistanceFieldEffect.java:115 | an output pixel's low 24 bits are the colour's and its top byte is the alpha |
| SignedDistance.UniformMaskSaturates | trunk/Slick/src/org/newdawn/slick/font/effects/DistanceFieldEffect.java:99-117 | an all-inside mask gives alpha 255 everywhere, an all-outside one alpha 0 |
| FontEffects.Defaults | trunk/Slick/src/org/newdawn/slick/font/effects/DistanceFieldEffect.java:33-35 | the default parameters (white, spread 4, downscale 8) are valid |
| FontEffects.ClampToOne | trunk/Slick/src/org/newdawn/slick/font/effects/DistanceFieldEffect.java:50 | Math.max(1, v) is at least 1, equal to v when v >= 1 and 1 otherwise |
| FontEffects.ValuesOf | trunk/Slick/src/org/newdawn/slick/font/effects/DistanceFieldEffect.java:191-195 | the three entries getValues builds; GetThenSetIsIdentity proves they rebuild the parameters from any start |
| FontEffects.ApplyValue | trunk/Slick/src/org/newdawn/slick/font/effects/DistanceFieldEffect.java:201-208 | dispatching one entry by name keeps the parameters valid |
| FontEffects.ApplyValues | trunk/Slick/src/org/newdawn/slick/font/effects/DistanceFieldEffect.java:199-210 | applying a list in order keeps the parameters valid |
| FontEffects.UnknownNamesIgnored | trunk/Slick/src/org/newdawn/slick/font/effects/DistanceFieldEffect.java:202-208 | entries with none of the three names leave the parameters unchanged |
| FontEffects.GetThenSetIsIdentity | trunk/Slick/src/org/newdawn/slick/font/effects/DistanceFieldEffect.java:189-211 | feeding getValues' list of valid parameters to setValues rebuilds exactly those parameters from any starting parameters, with every cast succeeding |
| FontEffects.SetValueClamps | trunk/Slick/src/org/newdawn/slick/font/effects/DistanceFieldEffect.java:204-207 | a Downscale or Spread entry below 1 stores 1 |
| FontEffects.MaskOf | trunk/Slick/src/org/newdawn/slick/font/effects/DistanceFieldEffect.java:91-97 | the mask has the image's dimensions and holds each pixel's inside test |
| FontEffects.Threshold | trunk/Slick/src/org/newdawn/slick/font/effects/DistanceFieldEffect.java:91-97 | the first pass fills a fresh bitmap equal to the image's mask |
| FontEffects.DistanceFieldEffect.constructor | trunk/Slick/src/org/newdawn/slick/font/effects/DistanceFieldEffect.java:33-35 | a new effect has the default parameters |
| FontEffects.DistanceFieldEffect.GetColor | trunk/Slick/src/org/newdawn/slick/font/effects/DistanceFieldEffect.java:37-39 | the colour field, which only SetColor and SetValues change (their ensures, and those of SetSpread and SetDownscale, state the rest of the state) |
| FontEffects.DistanceFieldEffect.GetSpread | trunk/Slick/src/org/newdawn/slick/font/effects/DistanceFieldEffect.java:45-47 | the getter never returns less than 1 |
| FontEffects.DistanceFieldEffect.GetDownscale | trunk/Slick/src/org/newdawn/slick/font/effects/DistanceFieldEffect.java:53-55 | the getter never returns less than 1 |
| FontEffects.DistanceFieldEffect.SetColor | trunk/Slick/src/org/newdawn/slick/font/effects/DistanceFieldEffect.java:41-43 | stores the colour and changes nothing else |
| FontEffects.DistanceFieldEffect.SetSpread | trunk/Slick/src/org/newdawn/slick/font/effects/DistanceFieldEffect.java:49-51 | stores max(1, v) as the spread and changes nothing else |
| FontEffects.DistanceFieldEffect.SetDownscale | trunk/Slick/src/org/newdawn/slick/font/effects/DistanceFieldEffect.java:57-59 | stores max(1, v) as the downscale and changes nothing else |
| FontEffects.DistanceFieldEffect.GetValues | trunk/Slick/src/org/newdawn/slick/font/effects/DistanceFieldEffect.java:189-196 | the list, fed to setValues from any starting parameters, rebuilds the current parameters with every cast succeeding |
| FontEffects.DistanceFieldEffect.SetValues | trunk/Slick/src/org/newdawn/slick/font/effects/DistanceFieldEffect.java:198-211 | the new parameters are those of applying the entries in order; a failed cast stops the loop with the earlier entries applied |
| FontEffects.DistanceFieldEffect.FindSignedDistance | trunk/Slick/src/org/newdawn/slick/font/effects/DistanceFieldEffect.java:130-158 | the scan over the clamped window returns the sample's class, the radius downscale * spread, and the nearest-opposite squared distance of the specification |
| FontEffects.DistanceFieldEffect.Process | trunk/Slick/src/org/newdawn/slick/font/effects/DistanceFieldEffect.java:83-120 | an input smaller than one block in either direction is the IllegalArgumentException of new BufferedImage (None); otherwise the output is inW / downscale by inH / downscale, and each pixel packs the colour with the alpha of the sampled distance |
| FontEffects.DistanceFieldEffect.SampleDistances | trunk/Slick/src/org/newdawn/slick/font/effects/DistanceFieldEffect.java:99-107 | every output cell holds the distance sampled at its block centre |
| FontEffects.DistanceFieldEffect.SampleColumn | trunk/Slick/src/org/newdawn/slick/font/effects/DistanceFieldEffect.java:101-106 | fills one column with sampled distances and leaves the other columns unchanged |
| FontEffects.DistanceFieldEffect.Colorize | trunk/Slick/src/org/newdawn/slick/font/effects/DistanceFieldEffect.java:109-117 | every output pixel is the colour with the distance's alpha on top |
| FontEffects.DistanceFieldEffect.ColorizeColumn | trunk/Slick/src/org/newdawn/slick/font/effects/DistanceFieldEffect.java:111-116 | packs one column and leaves the other columns unchanged |
| PngImage.ToInt | trunk/Slick/src/org/newdawn/slick/opengl/PNGImageData.java:191-197 | the result is in [0, 255], congruent to the byte modulo 256, and equal to it when it is non-negative |
| PngImage.ToByte | trunk/Slick/src/org/newdawn/slick/opengl/PNGImageData.java:143-145 | the cast (byte) n is congruent to n modulo 256 |
| PngImage.ToByteOfToInt | trunk/Slick/src/org/newdawn/slick/opengl/PNGImageData.java:191-197 | casting toInt(b) back to a byte gives b |
| PngImage.ToIntOfToByte | trunk/Slick/src/org/newdawn/slick/opengl/PNGImageData.java:191-197 | toInt of (byte) n gives n for every n in [0, 255] |
| PngImage.ColorComponents | trunk/Slick/src/org/newdawn/slick/opengl/PNGImageData.java:103 | every format has 1 to 4 components per pixel |
| PngImage.TextureFormat | trunk/Slick/src/org/newdawn/slick/opengl/PNGImageData.java:88-101 | only an unmapped decoder format is the "Unsupported Image format." error, and every mapped format comes from its decoder format |
| PngImage.DecoderFormatOf | trunk/Slick/src/org/newdawn/slick/opengl/PNGImageData.java:88-101 | every texture format has a decoder format that loadImage maps |
| PngImage.TextureFormatIsOneToOne | trunk/Slick/src/org/newdawn/slick/opengl/PNGImageData.java:88-101 | mapping a texture format's decoder format gives back that texture format |
| PngImage.WithAlpha | trunk/Slick/src/org/newdawn/slick/opengl/PNGImageData.java:150-154 | RGB becomes RGBA and GRAY becomes GRAYALPHA: a format with alpha and exactly one more component |
| PngImage.FinalFormat | trunk/Slick/src/org/newdawn/slick/opengl/PNGImageData.java:128-154 | forcing alpha on a format without it gives WithAlpha of it (RGBA, GRAYALPHA); a format with alpha, or no forcing, keeps the format |
| PngImage.FoldIsLeast | trunk/Slick/src/org/newdawn/slick/opengl/PNGImageData.java:205-211 | get2Fold's result is no larger than any power of two that is at least 2 and at least fold |
| PngImage.RowOffsets | trunk/Slick/src/org/newdawn/slick/opengl/PNGImageData.java:106-111 | the buffer is texHeight rows of texWidth * perPixel bytes, and the rows padding touches are ordered inside it |
| PngImage.CopiedSpan | trunk/Slick/src/org/newdawn/slick/opengl/PNGImageData.java:112-116 | vertical padding copies texWidth + perPixel - 1 bytes of a row: at least texWidth, at most the row, and the whole row exactly when perPixel is 1 |
| PngImage.Decoded | trunk/Slick/src/org/newdawn/slick/opengl/PNGImageData.java:106-107 | the decoded buffer has texWidth * texHeight * perPixel bytes, each holding the decoder's byte at its row and column |
| PngImage.DecodedPlacesRows | trunk/Slick/src/org/newdawn/slick/opengl/PNGImageData.java:106-107 | byte (r, c) of the image lies at r * stride + c; every texture byte outside the image is 0 |
| PngImage.RowsPadded | trunk/Slick/src/org/newdawn/slick/opengl/PNGImageData.java:109-118 | the buffer after the vertical padding, as long as the old one; RowsPaddedBytes states it byte by byte and PadRows is proved equal to it |
| PngImage.RowsPaddedBytes | trunk/Slick/src/org/newdawn/slick/opengl/PNGImageData.java:109-118 | the last texture row takes the first row's bytes and the row below the image takes the last image row's bytes, within the copied span; every other byte keeps its value |
| PngImage.PadRows | trunk/Slick/src/org/newdawn/slick/opengl/PNGImageData.java:109-118 | the in-place vertical padding turns the buffer into RowsPadded of the old buffer, with every index inside it |
| PngImage.CopyRowStarts | trunk/Slick/src/org/newdawn/slick/opengl/PNGImageData.java:112-117 | the double loop turns the buffer into the row copies of the old buffer |
| PngImage.CopyPixelStart | trunk/Slick/src/org/newdawn/slick/opengl/PNGImageData.java:113-116 | the inner loop extends the copied span to x + perPixel bytes |
| PngImage.ColumnCopyStep | trunk/Slick/src/org/newdawn/slick/opengl/PNGImageData.java:121-124 | one inner iteration changes exactly the two bytes the source writes, to the bytes it reads |
| PngImage.ColumnCopySources | trunk/Slick/src/org/newdawn/slick/opengl/PNGImageData.java:122-123 | the bytes the loop reads still hold their values from before the horizontal pass when they are read |
| PngImage.ColumnsPadded | trunk/Slick/src/org/newdawn/slick/opengl/PNGImageData.java:119-126 | the buffer after the horizontal padding, as long as the old one, each byte that of the finished ColumnCopy; ColumnsPaddedPixels states it pixel by pixel and PadColumns is proved equal to it |
| PngImage.ColumnsPaddedPixels | trunk/Slick/src/org/newdawn/slick/opengl/PNGImageData.java:119-126 | in every row the last texture pixel repeats the first pixel, the pixel right of the image repeats the image's last pixel, and the other bytes keep their values |
| PngImage.PadColumns | trunk/Slick/src/org/newdawn/slick/opengl/PNGImageData.java:119-126 | the in-place horizontal padding turns the buffer into ColumnsPadded of the old buffer, with every index inside it |
| PngImage.CopyRowEnds | trunk/Slick/src/org/newdawn/slick/opengl/PNGImageData.java:120-125 | the loop over the rows completes the horizontal padding of every row |
| PngImage.CopyRowEnd | trunk/Slick/src/org/newdawn/slick/opengl/PNGImageData.java:121-124 | the inner loop completes the horizontal padding of one row |
| PngImage.WidenedCellsLength | trunk/Slick/src/org/newdawn/slick/opengl/PNGImageData.java:130-131 | n widened cells take n * (orgComp + 1) bytes |
| PngImage.CellAlpha | trunk/Slick/src/org/newdawn/slick/opengl/PNGImageData.java:142-146 | the alpha byte of cell x * texHeight + y is (byte) 255, that is -1, exactly when x < height and y < width, and 0 otherwise |
| PngImage.WidenedCellsPrefix | trunk/Slick/src/org/newdawn/slick/opengl/PNGImageData.java:132-148 | later cells never change the bytes of earlier ones |
| PngImage.WidenedCellsAt | trunk/Slick/src/org/newdawn/slick/opengl/PNGImageData.java:134-146 | byte i of a cell's record is at dstOffset + i |
| PngImage.Widened | trunk/Slick/src/org/newdawn/slick/opengl/PNGImageData.java:131 | the widened buffer has texWidth * texHeight * (perPixel + 1) bytes |
| PngImage.WidenedKeepsColour | trunk/Slick/src/org/newdawn/slick/opengl/PNGImageData.java:134-141 | each cell's colour bytes move from srcOffset to dstOffset unchanged |
| PngImage.WidenedAlpha | trunk/Slick/src/org/newdawn/slick/opengl/PNGImageData.java:142-146 | the alpha byte of cell (x, y) is (byte) 255 when x < height and y < width, otherwise 0 |
| PngImage.WidenedAlphaMarksImageWhenSquare | trunk/Slick/src/org/newdawn/slick/opengl/PNGImageData.java:142-146 | for a square texture the alpha byte is -1, that is (byte) 255, exactly on the image's pixels, and 0 elsewhere |
| PngImage.WidenedAlphaMissesImageWhenNotSquare | trunk/Slick/src/org/newdawn/slick/opengl/PNGImageData.java:142-146 | for a 4 x 2 image the pixel in row 1, column 0 lies inside the image yet gets alpha 0 |
| PngImage.AddAlpha | trunk/Slick/src/org/newdawn/slick/opengl/PNGImageData.java:128-148 | the widening pass returns a fresh buffer equal to Widened of the scratch buffer |
| PngImage.WidenCells | trunk/Slick/src/org/newdawn/slick/opengl/PNGImageData.java:132-148 | the loops over x and then y fill the new buffer with the widened records of every cell |
| PngImage.WidenCell | trunk/Slick/src/org/newdawn/slick/opengl/PNGImageData.java:134-146 | one cell appends its record after the records already written and leaves every later byte unchanged |
| PngImage.CellFill | trunk/Slick/src/org/newdawn/slick/opengl/PNGImageData.java:137-141 | relative get and put copy orgComp bytes and leave the bytes before and after them unchanged |
| PngImage.LoadedBuffer | trunk/Slick/src/org/newdawn/slick/opengl/PNGImageData.java:106-156 | the final buffer has perPixel bytes per texture cell, plus one when widened |
| PngImage.PaddedBuffer | trunk/Slick/src/org/newdawn/slick/opengl/PNGImageData.java:106-126 | allocation, decoding and both padding passes give a fresh buffer equal to the unwidened LoadedBuffer |
| PngImage.PngImageData.constructor | trunk/Slick/src/org/newdawn/slick/opengl/PNGImageData.java:15-28 | a new object has zero sizes, no format and no buffer |
| PngImage.PngImageData.Get2Fold | trunk/Slick/src/org/newdawn/slick/opengl/PNGImageData.java:205-211 | the result is a power of two, at least 2 and fold, and half of it is below fold; it stays within Java's int range |
| PngImage.PngImageData.LoadImage | trunk/Slick/src/org/newdawn/slick/opengl/PNGImageData.java:75-183 | it stores the sizes and power-of-two texture sizes; an unmapped format is the error; otherwise it stores the final format and a fresh buffer of the padded, and if forced widened, image; with a transparent colour the format has alpha |

## Left out

- `DistanceFieldEffect.draw` renders the glyph through AWT's `Graphics2D` and `AffineTransform` and
  draws the result. That is foreign rendering. `Process` takes the input image as a 2-D array of
  ARGB values instead of a `BufferedImage`.
- `DistanceFieldEffect.toString` returns a constant name and is not modelled.
- `java.awt.Color` is represented by its `getRGB()` value. `Color.white` is `0xFFFFFFFF`.
- `BufferedImage.TYPE_4BYTE_ABGR` storage is not modelled. An output pixel is the ARGB value passed
  to `setRGB`.
- `EffectUtil.colorValue`, `EffectUtil.intValue` and the `Value` class are foreign. A `Value` is
  modelled as a name with a colour or an integer. Some failures of the real `setValues` are not
  modelled:
  - A `null` list or entry throws a NullPointerException in the source.
  - A `Pixel` colour is a value and cannot be null. In the source, `setColor(null)` or a "Color"
    entry holding null makes `process` throw a NullPointerException at `color.getRGB()`
    (`DistanceFieldEffect.java:115`).
  - A cast failure throws a ClassCastException in the source; here it ends the loop with
    `ok == false`.
- Float arithmetic is modelled exactly, not in IEEE float:
  - This affects `Math.sqrt`, the float division, the `0.5f` arithmetic and `d * 255`.
  - A `Distance` keeps the exact value, and `Alpha` is its exact floor.
  - A float computation can round to a different alpha when 255 times the value lies within
    rounding distance of an integer.
- Java `int` overflow is not modelled; integers are unbounded. This covers:
  - `downscale * spread` and its square;
  - `x * downscale`;
  - `texWidth * texHeight * perPixel`.
- FontEffects.DistanceFieldEffect.FindSignedDistance: requires the sample point to lie in the
  bitmap. That is what `process` passes (`SampleInRange`), and the source would throw otherwise.
- The PNG decoder is not part of this model:
  - The constructor, `decideTextureFormat` and `decode` are foreign, and so are their
    IOExceptions.
  - A decoding is given as a `DecodedImage`: the size, the decoder format and the image rows.
  - `decode` is taken to write each row at the start of its texture row, into a buffer that
    `BufferUtils.createByteBuffer` allocated zeroed.
- `ByteBuffer` is an array of Java bytes. Its position and limit are explicit offsets wherever the
  loops use relative `get`/`put`. The final `position(0)` has nothing to set.
- PngImage.PngImageData.LoadImage: requires width and height between 1 and 2^30, narrower than the
  source:
  - For a zero height or width the padding passes compute negative indices, and the source throws.
  - For sizes above 2^30, `get2Fold` does not terminate.
- PngImage.PngImageData.Get2Fold: requires fold <= 2^30. Beyond that, doubling overflows Java's
  `int` and the source's loop never ends.
- The body of the transparent-colour keying pass (`PNGImageData.java:160-178`) is proved
  unreachable, so its matching loop is not modelled. `toInt` is used only there.
- The `flipped` argument is accepted but never read, as in the source.
- The following are not modelled further:
  - The two shorter `loadImage` overloads only pass defaults on.
  - `configureEdging` is empty.
  - The getters only read fields, which the class exposes.
- `Format` (`ImageData.Format`) is not part of this model. Its component counts are taken to be RGB 3,
  RGBA 4, BGRA 4, GRAY 1 and GRAYALPHA 2. Its `hasAlpha` is taken to be false for RGB and GRAY only.
- `Shader`, `ShaderManager` and the demo programs (`ShaderTestAdvanced`, `FontTest`) are OpenGL
  calls and interactive programs. They are not part of this model.
