/**
 * org.newdawn.slick.opengl.PNGImageData: what loadImage does to the decoded pixels before
 * handing them to OpenGL. The texture is grown to powers of two, the image edges are
 * copied into the padding, a colour format without alpha can be widened by one alpha
 * byte per pixel, and a transparent colour forces that widening.
 *
 * Buffers are Java `byte`s (`int8`), laid out row by row, `texWidth * perPixel` bytes
 * per row. The PNG decoder itself is not part of this model: its result is taken as
 * the image size, the decoder format and the decoded rows.
 */
module PngImage {
  import opened Wrappers

  // ---------------------------------------------------------------------------------------
  // Bytes

  /** A Java byte. */
  newtype int8 = x: int | -128 <= x < 128

  /** toInt: the unsigned value of a byte. */
  function ToInt(b: int8): (r: int)
    ensures 0 <= r < 256
    ensures (r - b as int) % 256 == 0
    ensures b >= 0 ==> r == b as int
  {
    if b < 0 then 256 + b as int else b as int
  }

  /** Java's narrowing cast `(byte) n`: the byte congruent to n modulo 256. */
  function ToByte(n: int): (b: int8)
    ensures (b as int - n) % 256 == 0
  {
    ((n + 128) % 256 - 128) as int8
  }

  /** Reading a byte back as its unsigned value and casting it again gives the byte. */
  lemma ToByteOfToInt(b: int8)
    ensures ToByte(ToInt(b)) == b
  {
  }

  /** Every unsigned byte value survives the cast and toInt. */
  lemma ToIntOfToByte(n: int)
    requires 0 <= n < 256
    ensures ToInt(ToByte(n)) == n
  {
  }

  // ---------------------------------------------------------------------------------------
  // Formats

  /** The texture formats loadImage can produce (ImageData.Format). */
  datatype Format = RGB | RGBA | BGRA | GRAY | GRAYALPHA

  /** Bytes per pixel of a texture format. */
  function ColorComponents(f: Format): (n: int)
    ensures 1 <= n <= 4
  {
    match f
    case RGB => 3
    case RGBA => 4
    case BGRA => 4
    case GRAY => 1
    case GRAYALPHA => 2
  }

  predicate HasAlpha(f: Format)
  {
    f != RGB && f != GRAY
  }

  /**
   * The formats PNGDecoder offers; `OtherFormat` stands for every decoder format that
   * loadImage does not map.
   */
  datatype DecoderFormat = Rgb | Rgba | Bgra | Luminance | LuminanceAlpha | OtherFormat

  /** The texture format for a decoder format; None is the "Unsupported Image format." error. */
  function TextureFormat(df: DecoderFormat): (r: Option<Format>)
    ensures r.None? <==> df == OtherFormat
    ensures r.Some? ==> DecoderFormatOf(r.value) == df
  {
    match df
    case Rgb => Some(RGB)
    case Rgba => Some(RGBA)
    case Bgra => Some(BGRA)
    case Luminance => Some(GRAY)
    case LuminanceAlpha => Some(GRAYALPHA)
    case OtherFormat => None
  }

  /** The decoder format each texture format comes from. */
  function DecoderFormatOf(f: Format): (df: DecoderFormat)
    ensures df != OtherFormat
  {
    match f
    case RGB => Rgb
    case RGBA => Rgba
    case BGRA => Bgra
    case GRAY => Luminance
    case GRAYALPHA => LuminanceAlpha
  }

  /** The mapping is one to one: every texture format is reached from exactly one decoder format. */
  lemma TextureFormatIsOneToOne(f: Format)
    ensures TextureFormat(DecoderFormatOf(f)) == Some(f)
  {
  }

  /** The format after widening: RGB becomes RGBA and GRAY becomes GRAYALPHA. */
  function WithAlpha(f: Format): (g: Format)
    requires !HasAlpha(f)
    ensures HasAlpha(g)
    ensures ColorComponents(g) == ColorComponents(f) + 1
    ensures f == RGB ==> g == RGBA
    ensures f == GRAY ==> g == GRAYALPHA
  {
    if f == RGB then RGBA else GRAYALPHA
  }

  /** The format loadImage ends with, from the decoded format and whether alpha is forced. */
  function FinalFormat(f: Format, forceAlpha: bool): (g: Format)
    ensures forceAlpha ==> HasAlpha(g)
    ensures HasAlpha(f) ==> g == f
    ensures !forceAlpha ==> g == f
    ensures forceAlpha && !HasAlpha(f) ==> g == WithAlpha(f)
  {
    if forceAlpha && !HasAlpha(f) then WithAlpha(f) else f
  }

  // ---------------------------------------------------------------------------------------
  // Texture sizes

  ghost predicate IsPowerOfTwo(n: int)
    decreases n
  {
    n == 1 || (n >= 2 && n % 2 == 0 && IsPowerOfTwo(n / 2))
  }

  /** t is what get2Fold returns for fold: a power of two, at least 2 and fold, halving it falls short. */
  ghost predicate IsFold(fold: int, t: int)
  {
    t >= 2 && t >= fold && IsPowerOfTwo(t) && (t > 2 ==> t / 2 < fold)
  }

  /** A power of two below another is at most half of it. */
  lemma {:induction false} PowerBelowIsAtMostHalf(p: int, t: int)
    requires IsPowerOfTwo(p) && IsPowerOfTwo(t) && p < t
    ensures p <= t / 2
    decreases t
  {
    if p > 1 {
      PowerBelowIsAtMostHalf(p / 2, t / 2);
    }
  }

  /** The texture size is the least power of two that is at least 2 and at least fold. */
  lemma FoldIsLeast(fold: int, t: int, p: int)
    requires IsFold(fold, t)
    requires IsPowerOfTwo(p) && p >= 2 && p >= fold
    ensures t <= p
  {
    if p < t {
      PowerBelowIsAtMostHalf(p, t);
    }
  }

  // ---------------------------------------------------------------------------------------
  // Buffer layout

  /** The image and texture sizes and the bytes per pixel of the buffer being processed. */
  datatype Layout = Layout(width: int, height: int, texWidth: int, texHeight: int, perPixel: int)
  {
    /** Bytes per texture row. */
    function Stride(): int { texWidth * perPixel }
    /** Bytes in the buffer, as allocated. */
    function Size(): int { texWidth * texHeight * perPixel }
  }

  /** The image fits in the texture, which is at least 2 x 2. */
  predicate ValidLayout(l: Layout)
  {
    1 <= l.width <= l.texWidth && 1 <= l.height <= l.texHeight
    && 2 <= l.texWidth && 2 <= l.texHeight && 1 <= l.perPixel
  }

  lemma MulLeft(a: int, b: int, n: int)
    requires 0 <= a <= b && n >= 0
    ensures 0 <= a * n <= b * n
  {
  }

  lemma MulSucc(a: int, n: int)
    ensures (a - 1) * n + n == a * n
  {
  }

  /** The offsets of the rows loadImage touches, in the order they lie in the buffer. */
  lemma RowOffsets(l: Layout)
    requires ValidLayout(l)
    ensures l.Stride() >= 2 * l.perPixel
    ensures l.Size() == l.texHeight * l.Stride()
    ensures (l.texHeight - 1) * l.Stride() + l.Stride() == l.Size()
    ensures l.Stride() <= l.height * l.Stride()
    ensures (l.height - 1) * l.Stride() + l.Stride() == l.height * l.Stride()
    ensures l.height < l.texHeight - 1 ==> l.height * l.Stride() + l.Stride() <= (l.texHeight - 1) * l.Stride()
  {
    var st, th, h := l.Stride(), l.texHeight, l.height;
    MulLeft(2, l.texWidth, l.perPixel);
    assert l.Size() == th * st by {
      assert l.texWidth * l.texHeight * l.perPixel == l.texHeight * (l.texWidth * l.perPixel);
    }
    MulSucc(th, st);
    MulSucc(h, st);
    MulLeft(1, h, st);
    if h < th - 1 {
      MulSucc(h + 1, st);
      MulLeft(h + 1, th - 1, st);
    }
  }

  /** Byte k of the buffer as (row, column) when it lies in row y at column c. */
  lemma RowAndColumn(y: int, c: int, n: int)
    requires y >= 0 && 0 <= c < n
    ensures (y * n + c) / n == y && (y * n + c) % n == c
  {
    var k := y * n + c;
    var q, r := k / n, k % n;
    assert (q - y) * n == c - r;
    if q > y {
      MulLeft(1, q - y, n);
    } else if q < y {
      MulLeft(1, y - q, n);
    }
  }

  /** The bytes edge padding copies from the start of a row: texWidth + perPixel - 1. */
  function CopiedSpan(l: Layout): (span: int)
    requires ValidLayout(l)
    ensures l.texWidth <= span <= l.Stride()
    ensures span == l.Stride() <==> l.perPixel == 1
  {
    SpanGap(l.texWidth, l.perPixel);
    l.texWidth + l.perPixel - 1
  }

  /** w + p - 1 <= w * p for w >= 2 and p >= 1, with equality exactly when p == 1. */
  lemma SpanGap(w: int, p: int)
    requires w >= 2 && p >= 1
    ensures w <= w + p - 1 <= w * p
    ensures w + p - 1 == w * p <==> p == 1
  {
    assert w * p - (w + p - 1) == (w - 1) * (p - 1);
    MulLeft(1, w - 1, p - 1);
  }

  // ---------------------------------------------------------------------------------------
  // Decoding

  /** The decoder's result: the image size, its format, and each image row's bytes. */
  datatype DecodedImage = DecodedImage(width: int, height: int, format: DecoderFormat, rows: seq<seq<int8>>)

  /** The decoder yields `height` rows of `width` pixels of perPixel bytes. */
  predicate RowsFit(img: DecodedImage, perPixel: int)
  {
    |img.rows| == img.height && forall r :: 0 <= r < |img.rows| ==> |img.rows[r]| == img.width * perPixel
  }

  /** Byte k of a buffer whose rows are `stride` bytes apart, after the decoder wrote `rows`. */
  function DecodedByte(rows: seq<seq<int8>>, stride: int, k: int): int8
    requires stride > 0
  {
    var r, c := k / stride, k % stride;
    if 0 <= r < |rows| && c < |rows[r]| then rows[r][c] else 0
  }

  /**
   * The buffer after decode(scratch, texWidth * perPixel, format): each image row at the
   * start of its texture row, every other byte still zero as allocated.
   */
  function Decoded(img: DecodedImage, l: Layout): (s: seq<int8>)
    requires ValidLayout(l)
    ensures |s| == l.Size() && l.Stride() > 0
    ensures forall k :: 0 <= k < |s| ==> s[k] == DecodedByte(img.rows, l.Stride(), k)
  {
    MulLeft(1, l.texWidth, l.perPixel);
    seq(l.Size(), k requires 0 <= k < l.Size() => DecodedByte(img.rows, l.Stride(), k))
  }

  lemma SizeIsRows(l: Layout)
    ensures l.Size() == l.texHeight * l.Stride()
  {
  }

  /** Byte r * stride + c lies in the buffer when r is a texture row and c < stride. */
  lemma RowByteInBuffer(r: int, c: int, texHeight: int, stride: int)
    requires 0 <= r < texHeight && 0 <= c < stride
    ensures 0 <= r * stride + c < texHeight * stride
  {
    MulLeft(r + 1, texHeight, stride);
    MulSucc(r + 1, stride);
  }

  /**
   * Decoded bytes: byte (r, c) of the image lies at r * stride + c, and every byte of the
   * texture outside the image is zero.
   */
  lemma DecodedPlacesRows(img: DecodedImage, l: Layout, r: int, c: int)
    requires ValidLayout(l) && RowsFit(img, l.perPixel) && img.height == l.height && img.width == l.width
    requires 0 <= r < l.texHeight && 0 <= c < l.Stride()
    ensures 0 <= r * l.Stride() + c < l.Size()
    ensures Decoded(img, l)[r * l.Stride() + c]
      == if r < l.height && c < l.width * l.perPixel then img.rows[r][c] else 0
  {
    var stride := l.Stride();
    SizeIsRows(l);
    RowByteInBuffer(r, c, l.texHeight, stride);
    RowAndColumn(r, c, stride);
  }

  // ---------------------------------------------------------------------------------------
  // Edge padding: rows

  /**
   * Byte k once the first `span` bytes of the row at offset `top` were copied from the
   * first row, and those of the row at `below` from the row above it.
   */
  function RowCopy(s: seq<int8>, top: int, below: int, stride: int, span: int, k: int): int8
    requires 0 <= span <= stride <= below && below + stride <= top && top + stride == |s|
    requires 0 <= k < |s|
  {
    if top <= k < top + span then s[k - top]
    else if below <= k < below + span then s[k - stride]
    else s[k]
  }

  function RowCopies(s: seq<int8>, top: int, below: int, stride: int, span: int): (r: seq<int8>)
    requires 0 <= span <= stride <= below && below + stride <= top && top + stride == |s|
    ensures |r| == |s|
    ensures forall k :: 0 <= k < |s| ==> r[k] == RowCopy(s, top, below, stride, span, k)
  {
    seq(|s|, k requires 0 <= k < |s| => RowCopy(s, top, below, stride, span, k))
  }

  /**
   * The vertical edge padding after the first `span` bytes of a row were handled: the
   * last texture row starts with the first row's bytes, and the row below the image
   * starts with the image's last row's bytes.
   */
  function RowsPadded(s: seq<int8>, l: Layout, span: int): (r: seq<int8>)
    requires ValidLayout(l) && |s| == l.Size() && l.height < l.texHeight - 1
    requires 0 <= span <= l.Stride()
    ensures |r| == |s|
  {
    RowOffsets(l);
    RowCopies(s, (l.texHeight - 1) * l.Stride(), l.height * l.Stride(), l.Stride(), span)
  }

  /**
   * The vertical padding as written: byte c of the last texture row takes byte c of the
   * first row, and byte c of the row below the image takes byte c of the image's last
   * row, for c below texWidth + perPixel - 1; the rest of both rows, and every other row,
   * keep their bytes. With one byte per pixel that is the whole row.
   */
  lemma RowsPaddedBytes(s: seq<int8>, l: Layout, c: int)
    requires ValidLayout(l) && |s| == l.Size() && l.height < l.texHeight - 1
    requires 0 <= c < l.Stride()
    ensures 0 <= (l.height - 1) * l.Stride() + c < l.height * l.Stride() + c < (l.texHeight - 1) * l.Stride() + c < |s|
    ensures var r, top, below := RowsPadded(s, l, CopiedSpan(l)), (l.texHeight - 1) * l.Stride(), l.height * l.Stride();
      && (c < CopiedSpan(l) ==> r[top + c] == s[c] && r[below + c] == s[(l.height - 1) * l.Stride() + c])
      && (CopiedSpan(l) <= c ==> r[top + c] == s[top + c] && r[below + c] == s[below + c])
    ensures forall k :: 0 <= k < l.height * l.Stride() || l.height * l.Stride() + l.Stride() <= k < (l.texHeight - 1) * l.Stride() ==>
      RowsPadded(s, l, CopiedSpan(l))[k] == s[k]
  {
    RowOffsets(l);
  }

  /**
   * The first half of loadImage's edge padding, run when height < texHeight - 1; every
   * put and get index lies in the buffer.
   */
  method PadRows(scratch: array<int8>, l: Layout)
    requires ValidLayout(l) && scratch.Length == l.Size() && l.height < l.texHeight - 1
    modifies scratch
    ensures scratch[..] == RowsPadded(old(scratch[..]), l, CopiedSpan(l))
  {
    var stride := l.texWidth * l.perPixel;
    var topOffset := (l.texHeight - 1) * stride;
    var bottomOffset := (l.height - 1) * stride;
    assert l.texWidth + l.perPixel - 1 <= stride <= bottomOffset + stride
      && bottomOffset + 2 * stride <= topOffset && topOffset + stride == scratch.Length
      && bottomOffset + stride == l.height * stride && CopiedSpan(l) == l.texWidth + l.perPixel - 1
    by {
      RowOffsets(l);
      assert l.texWidth + l.perPixel - 1 == CopiedSpan(l);
    }
    CopyRowStarts(scratch, l.texWidth, l.perPixel, stride, topOffset, bottomOffset);
  }

  /** The loops of the vertical padding, over the offsets PadRows computed. */
  method CopyRowStarts(scratch: array<int8>, texWidth: int, perPixel: int, stride: int, topOffset: int, bottomOffset: int)
    requires 1 <= texWidth && 1 <= perPixel && texWidth + perPixel - 1 <= stride
    requires 0 <= bottomOffset && bottomOffset + 2 * stride <= topOffset && topOffset + stride == scratch.Length
    modifies scratch
    ensures scratch[..] == RowCopies(old(scratch[..]), topOffset, bottomOffset + stride, stride, texWidth + perPixel - 1)
  {
    ghost var s0 := scratch[..];
    ghost var below := bottomOffset + stride;
    for x := 0 to texWidth
      invariant forall k :: 0 <= k < scratch.Length ==>
        scratch[k] == RowCopy(s0, topOffset, below, stride, if x == 0 then 0 else x + perPixel - 1, k)
    {
      CopyPixelStart(scratch, perPixel, stride, topOffset, bottomOffset, x, s0);
    }
    assert scratch[..] == RowCopies(s0, topOffset, below, stride, texWidth + perPixel - 1);
  }

  /**
   * The inner loop of the vertical padding at pixel x: bytes x .. x + perPixel - 1 of both
   * rows, so that the copied span grows to x + perPixel.
   */
  method CopyPixelStart(scratch: array<int8>, perPixel: int, stride: int, topOffset: int, bottomOffset: int,
                        x: int, ghost s0: seq<int8>)
    requires 0 <= x && 1 <= perPixel && x + perPixel <= stride
    requires 0 <= bottomOffset && bottomOffset + 2 * stride <= topOffset && topOffset + stride == scratch.Length
    requires |s0| == scratch.Length
    requires forall k :: 0 <= k < scratch.Length ==>
      scratch[k] == RowCopy(s0, topOffset, bottomOffset + stride, stride, if x == 0 then 0 else x + perPixel - 1, k)
    modifies scratch
    ensures forall k :: 0 <= k < scratch.Length ==>
      scratch[k] == RowCopy(s0, topOffset, bottomOffset + stride, stride, x + perPixel, k)
  {
    ghost var below := bottomOffset + stride;
    // The bytes [0, span) of both rows were copied so far.
    ghost var span := if x == 0 then 0 else x + perPixel - 1;
    for i := 0 to perPixel
      invariant span == if x + i < x + perPixel - 1 && x > 0 then x + perPixel - 1 else x + i
      invariant forall k :: 0 <= k < scratch.Length ==> scratch[k] == RowCopy(s0, topOffset, below, stride, span, k)
    {
      scratch[topOffset + x + i] := scratch[x + i];
      scratch[bottomOffset + stride + x + i] := scratch[bottomOffset + x + i];
      span := if span < x + i + 1 then x + i + 1 else span;
    }
  }

  // ---------------------------------------------------------------------------------------
  // Edge padding: columns

  lemma ModAtMost(k: int, n: int)
    requires k >= 0 && n > 0
    ensures k % n <= k
  {
    if k < n {
      assert k % n == k;
    }
  }

  /** Whether byte b of the pixel in row r was handled once rows [0, y) and bytes [0, i) of row y were. */
  predicate Done(r: int, b: int, y: int, i: int)
  {
    r < y || (r == y && b < i)
  }

  /**
   * Byte k of the horizontal edge padding in progress: in each handled row the last
   * texture pixel takes the row's first pixel, and the pixel right of the image (at byte
   * `after` of the row) takes the image's last pixel.
   */
  function ColumnCopy(s: seq<int8>, stride: int, perPixel: int, after: int, y: int, i: int, k: int): int8
    requires 1 <= perPixel <= after && after + 2 * perPixel <= stride
    requires 0 <= k < |s|
  {
    ModAtMost(k, stride);
    var r, c := k / stride, k % stride;
    if stride - perPixel <= c && Done(r, c - (stride - perPixel), y, i) then s[k - (stride - perPixel)]
    else if after <= c < after + perPixel && Done(r, c - after, y, i) then s[k - perPixel]
    else s[k]
  }

  /**
   * The horizontal edge padding, run when width < texWidth - 1, over every texture row:
   * the last pixel of a row repeats its first, the pixel after the image its last.
   */
  function ColumnsPadded(s: seq<int8>, l: Layout): (r: seq<int8>)
    requires ValidLayout(l) && |s| == l.Size() && l.width < l.texWidth - 1
    ensures |r| == |s|
    ensures l.perPixel <= l.width * l.perPixel && l.width * l.perPixel + 2 * l.perPixel <= l.Stride()
    ensures l.Size() == l.texHeight * l.Stride()
    ensures forall k :: 0 <= k < |r| ==>
      r[k] == ColumnCopy(s, l.Stride(), l.perPixel, l.width * l.perPixel, l.texHeight, 0, k)
  {
    RowOffsets(l);
    ColumnOffsets(l);
    seq(|s|, k requires 0 <= k < |s| =>
      ColumnCopy(s, l.Stride(), l.perPixel, l.width * l.perPixel, l.texHeight, 0, k))
  }

  /** Where the image's right edge lies in a row when width < texWidth - 1. */
  lemma ColumnOffsets(l: Layout)
    requires ValidLayout(l) && l.width < l.texWidth - 1
    ensures l.perPixel <= l.width * l.perPixel
    ensures l.width * l.perPixel + 2 * l.perPixel <= l.Stride()
    ensures (l.width - 1) * l.perPixel == l.width * l.perPixel - l.perPixel
  {
    MulLeft(1, l.width, l.perPixel);
    MulLeft(l.width + 2, l.texWidth, l.perPixel);
  }

  /** Handling byte i of row y changes exactly the two bytes the source writes. */
  lemma ColumnCopyStep(s: seq<int8>, stride: int, perPixel: int, after: int, y: int, i: int, k: int)
    requires 1 <= perPixel <= after && after + 2 * perPixel <= stride
    requires y >= 0 && 0 <= i < perPixel && 0 <= k < |s|
    ensures var p1, p2 := y * stride + stride - perPixel + i, y * stride + after + i;
      ColumnCopy(s, stride, perPixel, after, y, i + 1, k) ==
        if k == p1 then s[y * stride + i]
        else if k == p2 then s[y * stride + after - perPixel + i]
        else ColumnCopy(s, stride, perPixel, after, y, i, k)
  {
    var p1, p2 := y * stride + stride - perPixel + i, y * stride + after + i;
    if k == p1 {
      RowAndColumn(y, stride - perPixel + i, stride);
    } else if k == p2 {
      RowAndColumn(y, after + i, stride);
    } else {
      var r, c := k / stride, k % stride;
      assert k == r * stride + c;
    }
  }

  /** Before the first row nothing is handled. */
  lemma ColumnCopyStart(s: seq<int8>, stride: int, perPixel: int, after: int, k: int)
    requires 1 <= perPixel <= after && after + 2 * perPixel <= stride && 0 <= k < |s|
    ensures ColumnCopy(s, stride, perPixel, after, 0, 0, k) == s[k]
  {
    assert k / stride >= 0;
  }

  /** Finishing every byte of row y is starting row y + 1. */
  lemma ColumnCopyNextRow(s: seq<int8>, stride: int, perPixel: int, after: int, y: int, k: int)
    requires 1 <= perPixel <= after && after + 2 * perPixel <= stride && 0 <= k < |s|
    ensures ColumnCopy(s, stride, perPixel, after, y, perPixel, k) == ColumnCopy(s, stride, perPixel, after, y + 1, 0, k)
  {
    assert k % stride < stride;
  }

  /** The unhandled bytes the loop reads: the first pixel and the image's last pixel of row y. */
  lemma ColumnCopySources(s: seq<int8>, stride: int, perPixel: int, after: int, y: int, i: int)
    requires 1 <= perPixel <= after && after + 2 * perPixel <= stride
    requires y >= 0 && 0 <= i < perPixel && y * stride + stride <= |s|
    ensures ColumnCopy(s, stride, perPixel, after, y, i, y * stride + i) == s[y * stride + i]
    ensures ColumnCopy(s, stride, perPixel, after, y, i, y * stride + after - perPixel + i)
      == s[y * stride + after - perPixel + i]
  {
    RowAndColumn(y, i, stride);
    RowAndColumn(y, after - perPixel + i, stride);
  }

  /**
   * The finished horizontal padding, byte c of row y, with `after` the first byte right of
   * the image: the last pixel of the row repeats the row's first pixel, the pixel at
   * `after` repeats the image's last pixel, and every other byte keeps its value.
   */
  lemma ColumnsPaddedPixels(s: seq<int8>, stride: int, perPixel: int, after: int, texHeight: int, y: int, c: int)
    requires 1 <= perPixel <= after && after + 2 * perPixel <= stride
    requires 0 <= y < texHeight && 0 <= c < stride && y * stride + stride <= |s|
    ensures var k, r := y * stride + c, ColumnCopy(s, stride, perPixel, after, texHeight, 0, y * stride + c);
      && (stride - perPixel <= c ==> r == s[y * stride + c - (stride - perPixel)])
      && (after <= c < after + perPixel ==> r == s[y * stride + (after - perPixel) + (c - after)])
      && (c < after || after + perPixel <= c < stride - perPixel ==> r == s[k])
  {
    RowAndColumn(y, c, stride);
  }

  /** The second half of loadImage's edge padding; every put and get index lies in the buffer. */
  method PadColumns(scratch: array<int8>, l: Layout)
    requires ValidLayout(l) && scratch.Length == l.Size() && l.width < l.texWidth - 1
    modifies scratch
    ensures scratch[..] == ColumnsPadded(old(scratch[..]), l)
  {
    RowOffsets(l);
    ColumnOffsets(l);
    CopyRowEnds(scratch, l.texHeight, l.texWidth * l.perPixel, l.perPixel, l.width * l.perPixel);
  }

  /** The loops of the horizontal padding; `after` is width * perPixel. */
  method CopyRowEnds(scratch: array<int8>, texHeight: int, stride: int, perPixel: int, after: int)
    requires 1 <= perPixel <= after && after + 2 * perPixel <= stride
    requires texHeight >= 0 && scratch.Length == texHeight * stride
    modifies scratch
    ensures forall k :: 0 <= k < scratch.Length ==>
      scratch[k] == ColumnCopy(old(scratch[..]), stride, perPixel, after, texHeight, 0, k)
  {
    ghost var s0 := scratch[..];
    forall k | 0 <= k < scratch.Length
      ensures scratch[k] == ColumnCopy(s0, stride, perPixel, after, 0, 0, k)
    {
      ColumnCopyStart(s0, stride, perPixel, after, k);
    }
    for y := 0 to texHeight
      invariant forall k :: 0 <= k < scratch.Length ==>
        scratch[k] == ColumnCopy(s0, stride, perPixel, after, y, 0, k)
    {
      assert y * stride + stride <= scratch.Length by {
        MulSucc(y + 1, stride);
        MulLeft(y + 1, texHeight, stride);
      }
      CopyRowEnd(scratch, y * stride, stride, perPixel, after, s0, y);
    }
  }

  /** One row of the horizontal padding: the inner loop over the bytes of a pixel. */
  method CopyRowEnd(scratch: array<int8>, rowStart: int, stride: int, perPixel: int, after: int,
                    ghost s0: seq<int8>, ghost y: int)
    requires 1 <= perPixel <= after && after + 2 * perPixel <= stride
    requires y >= 0 && rowStart == y * stride && rowStart + stride <= scratch.Length == |s0|
    requires forall k :: 0 <= k < scratch.Length ==>
      scratch[k] == ColumnCopy(s0, stride, perPixel, after, y, 0, k)
    modifies scratch
    ensures forall k :: 0 <= k < scratch.Length ==>
      scratch[k] == ColumnCopy(s0, stride, perPixel, after, y + 1, 0, k)
  {
    for i := 0 to perPixel
      invariant forall k :: 0 <= k < scratch.Length ==>
        scratch[k] == ColumnCopy(s0, stride, perPixel, after, y, i, k)
    {
      ColumnCopySources(s0, stride, perPixel, after, y, i);
      scratch[rowStart + stride - perPixel + i] := scratch[rowStart + i];
      scratch[rowStart + after + i] := scratch[rowStart + after - perPixel + i];
      forall k | 0 <= k < scratch.Length
        ensures scratch[k] == ColumnCopy(s0, stride, perPixel, after, y, i + 1, k)
      {
        ColumnCopyStep(s0, stride, perPixel, after, y, i, k);
      }
    }
    forall k | 0 <= k < scratch.Length
      ensures scratch[k] == ColumnCopy(s0, stride, perPixel, after, y + 1, 0, k)
    {
      ColumnCopyNextRow(s0, stride, perPixel, after, y, k);
    }
  }

  // ---------------------------------------------------------------------------------------
  // Widening to an alpha format

  /** Byte k of a buffer of `cells` records of n bytes lies in record k / n. */
  lemma CellOfByte(k: int, n: int, cells: int)
    requires n > 0 && 0 <= k < cells * n
    ensures 0 <= k / n < cells
  {
    if k / n >= cells {
      MulLeft(cells, k / n, n);
    }
  }

  /** Byte b of record `cell` lies in the buffer of `cells` records. */
  lemma ByteOfCell(cell: int, b: int, n: int, cells: int)
    requires 0 <= cell < cells && 0 <= b < n
    ensures 0 <= cell * n + b < cells * n
  {
    MulLeft(cell + 1, cells, n);
    MulSucc(cell + 1, n);
  }

  /**
   * The alpha byte of a cell. The loops visit cell x * texHeight + y for x across the
   * texture width and y across its height, and store (byte) 255 when x < height and
   * y < width, otherwise 0.
   */
  function CellAlpha(texHeight: int, width: int, height: int, cell: int): (a: int8)
    requires texHeight > 0
    ensures a == -1 <==> cell / texHeight < height && cell % texHeight < width
    ensures a == -1 || a == 0
  {
    if cell / texHeight < height && cell % texHeight < width then ToByte(255) else ToByte(0)
  }

  /** The widened record of a cell: its perPixel colour bytes, then its alpha byte. */
  function CellBytes(s: seq<int8>, perPixel: int, texHeight: int, width: int, height: int, cell: int)
    : (r: seq<int8>)
    requires perPixel >= 1 && texHeight >= 1 && 0 <= cell && cell * perPixel + perPixel <= |s|
    ensures |r| == perPixel + 1
  {
    s[cell * perPixel .. cell * perPixel + perPixel] + [CellAlpha(texHeight, width, height, cell)]
  }

  /** The widened records of the first `cells` cells. */
  function WidenedCells(s: seq<int8>, perPixel: int, texHeight: int, width: int, height: int, cells: int)
    : seq<int8>
    requires perPixel >= 1 && texHeight >= 1 && 0 <= cells && cells * perPixel <= |s|
    decreases cells
  {
    if cells == 0 then []
    else
      MulSucc(cells, perPixel);
      WidenedCells(s, perPixel, texHeight, width, height, cells - 1)
        + CellBytes(s, perPixel, texHeight, width, height, cells - 1)
  }

  lemma {:induction false} WidenedCellsLength(s: seq<int8>, perPixel: int, texHeight: int, width: int,
                                              height: int, cells: int)
    requires perPixel >= 1 && texHeight >= 1 && 0 <= cells && cells * perPixel <= |s|
    ensures |WidenedCells(s, perPixel, texHeight, width, height, cells)| == cells * (perPixel + 1)
    decreases cells
  {
    if cells > 0 {
      MulSucc(cells, perPixel);
      WidenedCellsLength(s, perPixel, texHeight, width, height, cells - 1);
      MulSucc(cells, perPixel + 1);
    }
  }

  /** The records of fewer cells are a prefix of the records of more. */
  lemma {:induction false} WidenedCellsPrefix(s: seq<int8>, perPixel: int, texHeight: int, width: int,
                                              height: int, m: int, cells: int)
    requires perPixel >= 1 && texHeight >= 1 && 0 <= m <= cells && cells * perPixel <= |s|
    ensures m * perPixel <= |s|
    ensures WidenedCells(s, perPixel, texHeight, width, height, m)
      <= WidenedCells(s, perPixel, texHeight, width, height, cells)
    decreases cells
  {
    MulLeft(m, cells, perPixel);
    if m < cells {
      MulSucc(cells, perPixel);
      WidenedCellsPrefix(s, perPixel, texHeight, width, height, m, cells - 1);
    }
  }

  /** Byte i of the record of `cell` sits at cell * (perPixel + 1) + i. */
  lemma WidenedCellsAt(s: seq<int8>, perPixel: int, texHeight: int, width: int,
                       height: int, cells: int, cell: int, i: int)
    requires perPixel >= 1 && texHeight >= 1 && 0 <= cells && cells * perPixel <= |s|
    requires 0 <= cell < cells && 0 <= i <= perPixel
    ensures cell * perPixel + perPixel <= |s|
    ensures 0 <= cell * (perPixel + 1) + i < |WidenedCells(s, perPixel, texHeight, width, height, cells)|
    ensures WidenedCells(s, perPixel, texHeight, width, height, cells)[cell * (perPixel + 1) + i]
      == CellBytes(s, perPixel, texHeight, width, height, cell)[i]
  {
    assert (cell + 1) * perPixel <= |s| && cell * perPixel + perPixel == (cell + 1) * perPixel by {
      MulLeft(cell + 1, cells, perPixel);
      MulSucc(cell + 1, perPixel);
    }
    var before := WidenedCells(s, perPixel, texHeight, width, height, cell);
    var upTo := WidenedCells(s, perPixel, texHeight, width, height, cell + 1);
    assert upTo <= WidenedCells(s, perPixel, texHeight, width, height, cells) by {
      WidenedCellsPrefix(s, perPixel, texHeight, width, height, cell + 1, cells);
    }
    assert upTo == before + CellBytes(s, perPixel, texHeight, width, height, cell);
    assert |before| == cell * (perPixel + 1) by {
      WidenedCellsLength(s, perPixel, texHeight, width, height, cell);
    }
  }

  /** The buffer after the widening loops, one byte longer per pixel. */
  function Widened(s: seq<int8>, l: Layout): (r: seq<int8>)
    requires ValidLayout(l) && |s| == l.Size()
    ensures |r| == l.texWidth * l.texHeight * (l.perPixel + 1)
  {
    WidenedCellsLength(s, l.perPixel, l.texHeight, l.width, l.height, l.texWidth * l.texHeight);
    WidenedCells(s, l.perPixel, l.texHeight, l.width, l.height, l.texWidth * l.texHeight)
  }

  /**
   * The widened records of `cells` cells keep each cell's colour bytes, one byte further
   * per earlier cell. Widened is the case cells == texWidth * texHeight.
   */
  lemma WidenedKeepsColour(s: seq<int8>, perPixel: int, texHeight: int, width: int, height: int,
                           cells: int, cell: int, i: int)
    requires perPixel >= 1 && texHeight >= 1 && 0 <= cells && cells * perPixel <= |s|
    requires 0 <= cell < cells && 0 <= i < perPixel
    ensures 0 <= cell * perPixel + i < |s|
    ensures 0 <= cell * (perPixel + 1) + i < |WidenedCells(s, perPixel, texHeight, width, height, cells)|
    ensures WidenedCells(s, perPixel, texHeight, width, height, cells)[cell * (perPixel + 1) + i]
      == s[cell * perPixel + i]
  {
    WidenedCellsAt(s, perPixel, texHeight, width, height, cells, cell, i);
    assert CellBytes(s, perPixel, texHeight, width, height, cell)[i] == s[cell * perPixel + i];
  }

  /**
   * The alpha byte of the cell the loops visit at (x, y): (byte) 255 when x < height and
   * y < width, otherwise 0.
   */
  lemma WidenedAlpha(s: seq<int8>, perPixel: int, texHeight: int, width: int, height: int,
                     cells: int, x: int, y: int)
    requires perPixel >= 1 && texHeight >= 1 && 0 <= cells && cells * perPixel <= |s|
    requires 0 <= x && 0 <= y < texHeight && x * texHeight + y < cells
    ensures 0 <= (x * texHeight + y) * (perPixel + 1) + perPixel
              < |WidenedCells(s, perPixel, texHeight, width, height, cells)|
    ensures WidenedCells(s, perPixel, texHeight, width, height, cells)[(x * texHeight + y) * (perPixel + 1) + perPixel]
      == if x < height && y < width then ToByte(255) else ToByte(0)
  {
    WidenedCellsAt(s, perPixel, texHeight, width, height, cells, x * texHeight + y, perPixel);
    RowAndColumn(x, y, texHeight);
  }

  /**
   * For a square texture (cells == side * side), the cells the loops visit are the
   * row-major pixels, so the alpha byte is (byte) 255, that is -1, exactly on the pixels
   * of the image, and 0 elsewhere.
   */
  lemma WidenedAlphaMarksImageWhenSquare(s: seq<int8>, perPixel: int, side: int, width: int, height: int,
                                         cell: int)
    requires perPixel >= 1 && side >= 1 && side * side * perPixel <= |s|
    requires 0 <= cell < side * side
    ensures 0 <= cell * (perPixel + 1) + perPixel < |WidenedCells(s, perPixel, side, width, height, side * side)|
    ensures var a := WidenedCells(s, perPixel, side, width, height, side * side)[cell * (perPixel + 1) + perPixel];
      && (a == -1 <==> cell / side < height && cell % side < width)
      && (a == -1 || a == 0)
  {
    MulComm(side, side, perPixel);
    WidenedCellsAt(s, perPixel, side, width, height, side * side, cell, perPixel);
    assert ToByte(255) == -1 && ToByte(0) == 0;
  }

  lemma MulComm(a: int, b: int, c: int)
    ensures a * b * c == (a * b) * c
  {
  }

  /**
   * For a texture wider than high the test is off: in a 4 x 2 image with 3 bytes per
   * pixel (texture 4 x 2, so 8 cells), the pixel in row 1 and column 0, cell 4, lies
   * inside the image yet gets alpha 0.
   */
  lemma WidenedAlphaMissesImageWhenNotSquare(s: seq<int8>, cells: int)
    requires |s| == 24 && cells == 8
    ensures var cell, texWidth := 4, 4;
      && cell / texWidth < 2 && cell % texWidth < 4
      && WidenedCells(s, 3, 2, 4, 2, cells)[cell * 4 + 3] == 0
  {
    WidenedAlpha(s, 3, 2, 4, 2, cells, 2, 0);
  }

  /** The source offsets of cell (x, y) are the cell's record offsets. */
  lemma CellOffsets(x: int, y: int, texHeight: int, n: int)
    ensures y * n + x * texHeight * n == (x * texHeight + y) * n
  {
  }

  /** temp holds the widened records of the first `cells` cells. */
  ghost predicate WidenedUpTo(temp: array<int8>, s: seq<int8>, perPixel: int, texHeight: int, width: int,
                              height: int, cells: int)
    reads temp
    requires perPixel >= 1 && texHeight >= 1 && 0 <= cells && cells * perPixel <= |s|
  {
    var w := WidenedCells(s, perPixel, texHeight, width, height, cells);
    |w| <= temp.Length && temp[..|w|] == w
  }

  /**
   * The widening pass: a new buffer with one more byte per pixel, filled cell by cell in
   * the order of the source's loops.
   */
  method AddAlpha(scratch: array<int8>, l: Layout) returns (temp: array<int8>)
    requires ValidLayout(l) && scratch.Length == l.Size()
    ensures fresh(temp)
    ensures temp[..] == Widened(scratch[..], l)
  {
    var newComp := l.perPixel + 1;
    temp := new int8[l.texWidth * l.texHeight * newComp];
    WidenCells(temp, scratch, scratch[..], l.perPixel, l.texWidth, l.texHeight, l.width, l.height);
  }

  /** The loops of the widening pass, over the columns x and then the rows y of the texture. */
  method WidenCells(temp: array<int8>, scratch: array<int8>, ghost s: seq<int8>, perPixel: int,
                    texWidth: int, texHeight: int, width: int, height: int)
    requires perPixel >= 1 && texHeight >= 1 && texWidth >= 1 && scratch[..] == s && temp != scratch
    requires |s| == texWidth * texHeight * perPixel
    requires temp.Length == texWidth * texHeight * (perPixel + 1)
    modifies temp
    ensures temp[..] == WidenedCells(s, perPixel, texHeight, width, height, texWidth * texHeight)
  {
    ghost var cells := texWidth * texHeight;
    // The cells visited so far.
    ghost var cell := 0;
    for x := 0 to texWidth
      invariant cell == x * texHeight
      invariant cell * perPixel <= |s|
      invariant WidenedUpTo(temp, s, perPixel, texHeight, width, height, cell)
    {
      for y := 0 to texHeight
        invariant cell == x * texHeight + y
        invariant cell * perPixel <= |s|
        invariant WidenedUpTo(temp, s, perPixel, texHeight, width, height, cell)
      {
        assert cell * perPixel + perPixel <= |s| && cell * (perPixel + 1) + perPixel + 1 <= temp.Length by {
          ByteOfCell(x, y, texHeight, texWidth);
          MulLeft(cell + 1, cells, perPixel);
          MulLeft(cell + 1, cells, perPixel + 1);
          MulSucc(cell + 1, perPixel);
          MulSucc(cell + 1, perPixel + 1);
        }
        WidenCell(temp, scratch, s, perPixel, texHeight, width, height, x, y, cell);
        cell := cell + 1;
      }
      MulSucc(x + 1, texHeight);
    }
    WidenedCellsLength(s, perPixel, texHeight, width, height, cell);
  }

  /**
   * One cell of the widening pass: both buffers positioned at the cell, its colour bytes
   * copied through relative get and put, then the alpha byte.
   */
  method WidenCell(temp: array<int8>, scratch: array<int8>, ghost s: seq<int8>, perPixel: int,
                   texHeight: int, width: int, height: int, x: int, y: int, ghost cell: int)
    requires perPixel >= 1 && texHeight >= 1 && scratch[..] == s && temp != scratch
    requires 0 <= x && 0 <= y < texHeight && cell == x * texHeight + y
    requires cell * perPixel + perPixel <= |s|
    requires cell * (perPixel + 1) + perPixel + 1 <= temp.Length
    requires WidenedUpTo(temp, s, perPixel, texHeight, width, height, cell)
    modifies temp
    ensures (cell + 1) * perPixel <= |s|
    ensures (cell + 1) * (perPixel + 1) <= temp.Length
    ensures WidenedUpTo(temp, s, perPixel, texHeight, width, height, cell + 1)
    ensures temp[(cell + 1) * (perPixel + 1)..] == old(temp[(cell + 1) * (perPixel + 1)..])
  {
    MulSucc(cell + 1, perPixel + 1);
    MulSucc(cell + 1, perPixel);
    var orgComp := perPixel;
    var newComp := orgComp + 1;
    var srcOffset := (y * orgComp) + (x * texHeight * orgComp);
    var dstOffset := (y * newComp) + (x * texHeight * newComp);
    ghost var w := WidenedCells(s, perPixel, texHeight, width, height, cell);
    assert srcOffset == cell * orgComp && dstOffset == |w| == cell * newComp by {
      CellOffsets(x, y, texHeight, orgComp);
      CellOffsets(x, y, texHeight, newComp);
      WidenedCellsLength(s, perPixel, texHeight, width, height, cell);
    }
    var tempPos, scratchPos := dstOffset, srcOffset;
    CellFill(temp, scratch, tempPos, scratchPos, orgComp);
    tempPos, scratchPos := tempPos + orgComp, scratchPos + orgComp;
    if x < height && y < width {
      temp[tempPos] := ToByte(255);
    } else {
      temp[tempPos] := ToByte(0);
    }
    assert CellAlpha(texHeight, width, height, cell) == temp[tempPos] by {
      RowAndColumn(x, y, texHeight);
    }
    ghost var next := WidenedCells(s, perPixel, texHeight, width, height, cell + 1);
    assert next == w + CellBytes(s, perPixel, texHeight, width, height, cell);
    assert temp[..dstOffset + newComp] == next;
  }

  /** The inner loop of the widening pass: `count` bytes copied by relative get and put. */
  method CellFill(temp: array<int8>, scratch: array<int8>, tempPos: int, scratchPos: int, count: int)
    requires temp != scratch && count >= 0
    requires 0 <= tempPos && tempPos + count <= temp.Length
    requires 0 <= scratchPos && scratchPos + count <= scratch.Length
    modifies temp
    ensures temp[..tempPos] == old(temp[..tempPos])
    ensures temp[tempPos..tempPos + count] == scratch[scratchPos..scratchPos + count]
    ensures temp[tempPos + count..] == old(temp[tempPos + count..])
  {
    var tp, sp := tempPos, scratchPos;
    for i := 0 to count
      invariant tp == tempPos + i && sp == scratchPos + i
      invariant temp[..tempPos] == old(temp[..tempPos])
      invariant temp[tempPos..tp] == scratch[scratchPos..sp]
      invariant temp[tp..] == old(temp[tp..])
    {
      temp[tp] := scratch[sp];
      tp, sp := tp + 1, sp + 1;
    }
  }

  // ---------------------------------------------------------------------------------------
  // The whole post-decode pipeline

  /**
   * The buffer loadImage returns: the decoded rows, the vertical then the horizontal edge
   * padding where the texture leaves more than one spare row or column, then the alpha
   * byte when the format is widened.
   */
  function LoadedBuffer(img: DecodedImage, l: Layout, widen: bool): (r: seq<int8>)
    requires ValidLayout(l)
    ensures |r| == l.texWidth * l.texHeight * (if widen then l.perPixel + 1 else l.perPixel)
  {
    var decoded := Decoded(img, l);
    var rows := if l.height < l.texHeight - 1 then RowsPadded(decoded, l, CopiedSpan(l)) else decoded;
    var columns := if l.width < l.texWidth - 1 then ColumnsPadded(rows, l) else rows;
    if widen then Widened(columns, l) else columns
  }

  /**
   * The scratch buffer of loadImage before widening: allocated at the texture's size,
   * the decoded rows written in, then the edge padding where it applies.
   */
  method PaddedBuffer(img: DecodedImage, l: Layout) returns (buffer: array<int8>)
    requires ValidLayout(l)
    ensures fresh(buffer)
    ensures buffer[..] == LoadedBuffer(img, l, false)
  {
    var decoded := Decoded(img, l);
    buffer := new int8[l.texWidth * l.texHeight * l.perPixel](k requires 0 <= k < |decoded| => decoded[k]);
    assert buffer[..] == decoded;
    if l.height < l.texHeight - 1 {
      PadRows(buffer, l);
    }
    if l.width < l.texWidth - 1 {
      PadColumns(buffer, l);
    }
  }

  /** The image data loaded from a PNG: sizes, texture format and the pixel buffer. */
  class PngImageData {
    var width: int
    var height: int
    var texHeight: int
    var texWidth: int
    /** None until an image was loaded. */
    var format: Option<Format>
    /** null until an image was loaded. */
    var scratch: array?<int8>

    constructor ()
      ensures width == 0 && height == 0 && texWidth == 0 && texHeight == 0
      ensures format == None && scratch == null
    {
      width, height, texWidth, texHeight := 0, 0, 0, 0;
      format, scratch := None, null;
    }

    /**
     * get2Fold: doubles from 2 until fold is reached. For fold up to 2^30 every value
     * stays below 2^31, inside Java's int range; beyond it the source's loop would not end.
     */
    method Get2Fold(fold: int) returns (ret: int)
      requires fold <= 0x4000_0000
      ensures IsFold(fold, ret)
      ensures ret < 0x8000_0000
    {
      ret := 2;
      while ret < fold
        invariant 2 <= ret < 0x8000_0000 && IsPowerOfTwo(ret)
        invariant ret > 2 ==> ret / 2 < fold
        decreases fold - ret
      {
        ret := ret * 2;
      }
    }

    /**
     * loadImage(in, flipped, forceAlpha, transparent) after the decoder has run. A
     * transparent colour forces alpha; an unmapped decoder format is the IOException
     * (None), raised after the sizes were stored. `flipped` is not used by the source.
     */
    method LoadImage(img: DecodedImage, flipped: bool, forceAlpha: bool, transparent: Option<seq<int>>)
      returns (result: Option<array<int8>>)
      requires 1 <= img.width <= 0x4000_0000 && 1 <= img.height <= 0x4000_0000
      modifies this
      ensures width == img.width && height == img.height
      ensures IsFold(width, texWidth) && IsFold(height, texHeight)
      ensures texWidth < 0x8000_0000 && texHeight < 0x8000_0000
      ensures TextureFormat(img.format).None? ==>
        result.None? && format == old(format) && scratch == old(scratch)
      ensures TextureFormat(img.format).Some? ==>
        var f := TextureFormat(img.format).value;
        var forced := forceAlpha || transparent.Some?;
        && format == Some(FinalFormat(f, forced))
        && scratch != null && fresh(scratch) && result.Some? && result.value == scratch
        && scratch.Length == texWidth * texHeight * ColorComponents(format.value)
        && scratch[..] == LoadedBuffer(img, Layout(width, height, texWidth, texHeight, ColorComponents(f)),
                                       forced && !HasAlpha(f))
      ensures transparent.Some? && result.Some? ==> HasAlpha(format.value)
    {
      var force := forceAlpha;
      if transparent.Some? {
        force := true;
      }
      width := img.width;
      height := img.height;
      texWidth := Get2Fold(width);
      texHeight := Get2Fold(height);

      var decoderFormat := TextureFormat(img.format);
      if decoderFormat.None? {
        return None;
      }
      var fmt := decoderFormat.value;
      format := Some(fmt);
      var perPixel := ColorComponents(fmt);
      var l := Layout(width, height, texWidth, texHeight, perPixel);
      var buffer := PaddedBuffer(img, l);
      scratch := buffer;
      // The buffer scratch refers to.
      var loaded := buffer;

      if !HasAlpha(fmt) && force {
        var temp := AddAlpha(buffer, l);
        if fmt == RGB {
          fmt := RGBA;
        } else if fmt == GRAY {
          fmt := GRAYALPHA;
        }
        format := Some(fmt);
        scratch, loaded := temp, temp;
      }

      if !HasAlpha(fmt) && transparent.Some? {
        // The keying pass is unreachable: a transparent colour forced the widening.
        assert false;
      }
      return Some(loaded);
    }
  }
}
