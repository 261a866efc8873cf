/**
 * The image transformations of transformations.c. Each one allocates a fresh image:
 * the header is copied (and, for turns and crops, adjusted) and the pixel buffer is
 * filled by loops that copy 3-byte pixels or whole rows out of the input buffer.
 * Each method is tied to a description of its result that does not depend on the
 * loops (Moved, Cropped, ExtractedByte); the lemmas relate those descriptions.
 */
module Transformations {
  import opened Bytes
  import opened BmpHeader
  import opened Stride
  import opened Pixels

  // ---------------------------------------------------------------------------------
  // Pixel motions: flip_horizontally, flip_vertically, rotate_right, rotate_left
  // ---------------------------------------------------------------------------------

  /** The four transformations that move whole pixels without changing their bytes. */
  datatype Motion = MirrorColumns | MirrorRows | TurnRight | TurnLeft

  /** Width of the result of motion m on a W x H image. */
  function OutWidth(m: Motion, W: int, H: int): int
  {
    if m.TurnRight? || m.TurnLeft? then H else W
  }

  /** Height of the result of motion m on a W x H image. */
  function OutHeight(m: Motion, W: int, H: int): int
  {
    if m.TurnRight? || m.TurnLeft? then W else H
  }

  /** Offset, in the W x H source, of the pixel that lands at row i, column j of the result. */
  function SourceOffset(m: Motion, W: int, H: int, i: int, j: int): int
  {
    match m
    case MirrorColumns => Offset(W, i, W - 1 - j)
    case MirrorRows => Offset(W, H - 1 - i, j)
    case TurnRight => Offset(W, j, W - 1 - i)
    case TurnLeft => Offset(W, H - 1 - j, i)
  }

  /** b holds the pixels of the W x H image a moved by m (padding bytes are left unspecified). */
  predicate Moved(m: Motion, W: int, H: int, a: seq<byte>, b: seq<byte>)
  {
    forall i, j | 0 <= i < OutHeight(m, W, H) && 0 <= j < OutWidth(m, W, H) ::
      PixelCopied(b, Offset(OutWidth(m, W, H), i, j), a, SourceOffset(m, W, H, i, j))
  }

  /** b holds the same pixels as the W x H image a. */
  predicate SamePixels(W: int, H: int, a: seq<byte>, b: seq<byte>)
  {
    forall i, j | 0 <= i < H && 0 <= j < W :: PixelCopied(b, Offset(W, i, j), a, Offset(W, i, j))
  }

  /** Every source pixel a motion reads lies inside the W x H source. */
  lemma SourceWithin(m: Motion, W: int, H: int, i: int, j: int)
    requires 0 <= W && 0 <= H
    requires 0 <= i < OutHeight(m, W, H) && 0 <= j < OutWidth(m, W, H)
    ensures 0 <= SourceOffset(m, W, H, i, j) && SourceOffset(m, W, H, i, j) + 3 <= RowSize(W) * H
  {
    match m
    case MirrorColumns => OffsetWithin(W, H, i, W - 1 - j);
    case MirrorRows => OffsetWithin(W, H, H - 1 - i, j);
    case TurnRight => OffsetWithin(W, H, j, W - 1 - i);
    case TurnLeft => OffsetWithin(W, H, H - 1 - j, i);
  }

  /** A mirror applied twice gives back every pixel. */
  lemma MirrorTwice(m: Motion, W: int, H: int, a: seq<byte>, b: seq<byte>, c: seq<byte>)
    requires m == MirrorColumns || m == MirrorRows
    requires Moved(m, W, H, a, b) && Moved(m, W, H, b, c)
    ensures SamePixels(W, H, a, c)
  {
    forall i, j | 0 <= i < H && 0 <= j < W
      ensures PixelCopied(c, Offset(W, i, j), a, Offset(W, i, j))
    {
      var i', j' := if m == MirrorColumns then i else H - 1 - i, if m == MirrorColumns then W - 1 - j else j;
      assert PixelCopied(c, Offset(W, i, j), b, SourceOffset(m, W, H, i, j));
      assert PixelCopied(b, Offset(W, i', j'), a, SourceOffset(m, W, H, i', j'));
    }
  }

  /** Turning right then left, or left then right, gives back every pixel. */
  lemma TurnBack(m: Motion, n: Motion, W: int, H: int, a: seq<byte>, b: seq<byte>, c: seq<byte>)
    requires (m, n) == (TurnRight, TurnLeft) || (m, n) == (TurnLeft, TurnRight)
    requires Moved(m, W, H, a, b) && Moved(n, H, W, b, c)
    ensures SamePixels(W, H, a, c)
  {
    forall i, j | 0 <= i < H && 0 <= j < W
      ensures PixelCopied(c, Offset(W, i, j), a, Offset(W, i, j))
    {
      var i', j' := if m == TurnRight then W - 1 - j else j, if m == TurnRight then i else H - 1 - i;
      assert PixelCopied(c, Offset(W, i, j), b, SourceOffset(n, H, W, i, j));
      assert PixelCopied(b, Offset(H, i', j'), a, SourceOffset(m, W, H, i', j'));
    }
  }

  /** Four right turns give back every pixel. */
  lemma TurnFour(W: int, H: int, a: seq<byte>, b: seq<byte>, c: seq<byte>, d: seq<byte>, e: seq<byte>)
    requires Moved(TurnRight, W, H, a, b) && Moved(TurnRight, H, W, b, c)
    requires Moved(TurnRight, W, H, c, d) && Moved(TurnRight, H, W, d, e)
    ensures SamePixels(W, H, a, e)
  {
    forall i, j | 0 <= i < H && 0 <= j < W
      ensures PixelCopied(e, Offset(W, i, j), a, Offset(W, i, j))
    {
      assert PixelCopied(e, Offset(W, i, j), d, SourceOffset(TurnRight, H, W, i, j));
      assert PixelCopied(d, Offset(H, j, H - 1 - i), c, SourceOffset(TurnRight, W, H, j, H - 1 - i));
      assert PixelCopied(c, Offset(W, H - 1 - i, W - 1 - j), b, SourceOffset(TurnRight, H, W, H - 1 - i, W - 1 - j));
      assert PixelCopied(b, Offset(H, W - 1 - j, i), a, SourceOffset(TurnRight, W, H, W - 1 - j, i));
    }
  }

  /** The nested pixel loops of flip_horizontally, rotate_right and rotate_left: one 3-byte memcpy per pixel. */
  method MovePixels(m: Motion, src: array<byte>, W: int, H: int, dst: array<byte>)
    requires src != dst && 0 <= W && 0 <= H
    requires RowSize(W) * H <= src.Length
    requires RowSize(OutWidth(m, W, H)) * OutHeight(m, W, H) <= dst.Length
    modifies dst
    ensures Moved(m, W, H, src[..], dst[..])
  {
    var w, h := OutWidth(m, W, H), OutHeight(m, W, H);
    var i := 0;
    while i < h
      invariant 0 <= i <= h
      invariant forall i', j' | 0 <= i' < i && 0 <= j' < w ::
        PixelCopied(dst[..], Offset(w, i', j'), src[..], SourceOffset(m, W, H, i', j'))
    {
      MoveRow(m, src, W, H, dst, i);
      i := i + 1;
    }
  }

  /** The inner loop of a flip or rotation: the pixels of output row i, the rows before it kept. */
  method MoveRow(m: Motion, src: array<byte>, W: int, H: int, dst: array<byte>, i: int)
    requires src != dst && 0 <= W && 0 <= H && 0 <= i < OutHeight(m, W, H)
    requires RowSize(W) * H <= src.Length
    requires RowSize(OutWidth(m, W, H)) * OutHeight(m, W, H) <= dst.Length
    requires forall i', j' | 0 <= i' < i && 0 <= j' < OutWidth(m, W, H) ::
      PixelCopied(dst[..], Offset(OutWidth(m, W, H), i', j'), src[..], SourceOffset(m, W, H, i', j'))
    modifies dst
    ensures forall i', j' | 0 <= i' <= i && 0 <= j' < OutWidth(m, W, H) ::
      PixelCopied(dst[..], Offset(OutWidth(m, W, H), i', j'), src[..], SourceOffset(m, W, H, i', j'))
  {
    var j := 0;
    while j < OutWidth(m, W, H)
      invariant 0 <= j <= OutWidth(m, W, H)
      invariant RowsMoved(m, W, H, src[..], dst[..], i, j)
    {
      MovePixel(m, src, W, H, dst, i, j);
      j := j + 1;
    }
  }

  /** Output rows before i are moved, and so are the first j pixels of row i. */
  ghost predicate RowsMoved(m: Motion, W: int, H: int, a: seq<byte>, b: seq<byte>, i: int, j: int)
  {
    && (forall i', j' | 0 <= i' < i && 0 <= j' < OutWidth(m, W, H) ::
          PixelCopied(b, Offset(OutWidth(m, W, H), i', j'), a, SourceOffset(m, W, H, i', j')))
    && (forall j' | 0 <= j' < j :: PixelCopied(b, Offset(OutWidth(m, W, H), i, j'), a, SourceOffset(m, W, H, i, j')))
  }

  /** The body of the inner loop: one 3-byte memcpy of pixel (i, j) from its source pixel. */
  method MovePixel(m: Motion, src: array<byte>, W: int, H: int, dst: array<byte>, i: int, j: int)
    requires src != dst && 0 <= W && 0 <= H && 0 <= i < OutHeight(m, W, H) && 0 <= j < OutWidth(m, W, H)
    requires RowSize(W) * H <= src.Length
    requires RowSize(OutWidth(m, W, H)) * OutHeight(m, W, H) <= dst.Length
    requires RowsMoved(m, W, H, src[..], dst[..], i, j)
    modifies dst
    ensures RowsMoved(m, W, H, src[..], dst[..], i, j + 1)
  {
    var w, h := OutWidth(m, W, H), OutHeight(m, W, H);
    var d, s := Offset(w, i, j), SourceOffset(m, W, H, i, j);
    OffsetWithin(w, h, i, j);
    SourceWithin(m, W, H, i, j);
    ghost var before := dst[..];
    CopyBytes(dst, d, src, s, 3);
    assert PixelCopied(dst[..], d, src[..], s);
    KeepRows(m, W, H, src[..], before, dst[..], i, d);
    ExtendRow(m, W, H, src[..], before, dst[..], i, j);
  }

  /** Output rows before i stay moved when only bytes from `bound` = Offset(w, i, j) on change. */
  lemma KeepRows(m: Motion, W: int, H: int, a: seq<byte>, b: seq<byte>, b': seq<byte>, i: int, bound: int)
    requires 0 <= W && 0 <= H && 0 <= i && Offset(OutWidth(m, W, H), i, 0) <= bound
    requires |b'| == |b| && forall k | 0 <= k < bound && k < |b| :: b'[k] == b[k]
    requires forall i', j' | 0 <= i' < i && 0 <= j' < OutWidth(m, W, H) ::
      PixelCopied(b, Offset(OutWidth(m, W, H), i', j'), a, SourceOffset(m, W, H, i', j'))
    ensures forall i', j' | 0 <= i' < i && 0 <= j' < OutWidth(m, W, H) ::
      PixelCopied(b', Offset(OutWidth(m, W, H), i', j'), a, SourceOffset(m, W, H, i', j'))
  {
    OffsetsBefore(OutWidth(m, W, H), i, 0);
  }

  /**
   * The first j pixels of output row i stay moved when only bytes from Offset(w, i, j) on
   * change, so once pixel j is copied the first j + 1 are.
   */
  lemma ExtendRow(m: Motion, W: int, H: int, a: seq<byte>, b: seq<byte>, b': seq<byte>, i: int, j: int)
    requires 0 <= W && 0 <= H && 0 <= i && 0 <= j < OutWidth(m, W, H)
    requires |b'| == |b| && forall k | 0 <= k < Offset(OutWidth(m, W, H), i, j) && k < |b| :: b'[k] == b[k]
    requires forall j' | 0 <= j' < j :: PixelCopied(b, Offset(OutWidth(m, W, H), i, j'), a, SourceOffset(m, W, H, i, j'))
    requires PixelCopied(b', Offset(OutWidth(m, W, H), i, j), a, SourceOffset(m, W, H, i, j))
    ensures forall j' | 0 <= j' <= j :: PixelCopied(b', Offset(OutWidth(m, W, H), i, j'), a, SourceOffset(m, W, H, i, j'))
  {
    OffsetsBefore(OutWidth(m, W, H), i, j);
  }


  /** flip_horizontally: same header, each row's pixels in reverse order. */
  method FlipHorizontally(image: Bitmap?) returns (result: Bitmap?)
    requires image != null ==> Sound(image)
    ensures image == null <==> result == null
    ensures result != null ==>
      && fresh(result) && fresh(result.data)
      && result.header == image.header
      && result.data.Length == ImageSize(image.header)
      && Moved(MirrorColumns, image.header.width, image.header.height, image.data[..], result.data[..])
  {
    if image == null {
      return null;
    }
    var out := new byte[ImageSize(image.header)];
    MovePixels(MirrorColumns, image.data, image.header.width, image.header.height, out);
    result := new Bitmap(image.header, out);
  }

  /** The row loop of flip_vertically: one memcpy of 3 * width bytes per row. */
  method MirrorRowsCopy(src: array<byte>, W: int, H: int, dst: array<byte>)
    requires src != dst && 0 <= W && 0 <= H
    requires RowSize(W) * H <= src.Length && RowSize(W) * H <= dst.Length
    modifies dst
    ensures Moved(MirrorRows, W, H, src[..], dst[..])
  {
    var i := 0;
    while i < H
      invariant 0 <= i <= H
      invariant RowsMoved(MirrorRows, W, H, src[..], dst[..], i, 0)
    {
      MirrorRow(src, W, H, dst, i);
      i := i + 1;
    }
  }

  /** One pass of flip_vertically's loop: row H - 1 - i copied into row i, the rows before it kept. */
  method MirrorRow(src: array<byte>, W: int, H: int, dst: array<byte>, i: int)
    requires src != dst && 0 <= W && 0 <= i < H
    requires RowSize(W) * H <= src.Length && RowSize(W) * H <= dst.Length
    requires RowsMoved(MirrorRows, W, H, src[..], dst[..], i, 0)
    modifies dst
    ensures RowsMoved(MirrorRows, W, H, src[..], dst[..], i + 1, 0)
  {
    var d, s := Offset(W, i, 0), Offset(W, H - 1 - i, 0);
    RowWithin(W, H, i);
    RowWithin(W, H, H - 1 - i);
    OffsetsBefore(W, i, 0);
    ghost var before := dst[..];
    CopyBytes(dst, d, src, s, 3 * W);
    forall i', j | 0 <= i' < i + 1 && 0 <= j < W
      ensures PixelCopied(dst[..], Offset(W, i', j), src[..], SourceOffset(MirrorRows, W, H, i', j))
    {
      if i' < i {
        assert PixelCopied(before, Offset(W, i', j), src[..], SourceOffset(MirrorRows, W, H, i', j));
      } else {
        assert Offset(W, i, j) == d + 3 * j && SourceOffset(MirrorRows, W, H, i, j) == s + 3 * j;
      }
    }
  }

  /** flip_vertically: same header, the rows in reverse order. */
  method FlipVertically(image: Bitmap?) returns (result: Bitmap?)
    requires image != null ==> Sound(image)
    ensures image == null <==> result == null
    ensures result != null ==>
      && fresh(result) && fresh(result.data)
      && result.header == image.header
      && result.data.Length == ImageSize(image.header)
      && Moved(MirrorRows, image.header.width, image.header.height, image.data[..], result.data[..])
  {
    if image == null {
      return null;
    }
    var out := new byte[ImageSize(image.header)];
    MirrorRowsCopy(image.data, image.header.width, image.header.height, out);
    result := new Bitmap(image.header, out);
  }

  /** The header of a turned image: width and height exchanged, every other field (image_size included) kept. */
  function Turned(h: Header): (t: Header)
    ensures t.width == h.height && t.height == h.width
    ensures t.magic == h.magic && t.size == h.size && t.imageSize == h.imageSize
    ensures t.offsetInfo == h.offsetInfo && t.formatInfo == h.formatInfo && t.trailer == h.trailer
    ensures WellFormed(h) ==> WellFormed(t)
  {
    h.(width := h.height, height := h.width)
  }

  /** rotate_right: the turned header; row i of the result is column width - 1 - i of the source. */
  method RotateRight(image: Bitmap?) returns (result: Bitmap?)
    requires image != null ==> Sound(image)
    requires image != null ==> RowSize(image.header.height) * image.header.width <= ImageSize(Turned(image.header))
    ensures image == null <==> result == null
    ensures result != null ==>
      && fresh(result) && fresh(result.data)
      && result.header == Turned(image.header)
      && result.data.Length == ImageSize(Turned(image.header))
      && Moved(TurnRight, image.header.width, image.header.height, image.data[..], result.data[..])
  {
    if image == null {
      return null;
    }
    var W, H := image.header.width, image.header.height;
    MulMonotone(0, 0, RowSize(H), W);
    var out := new byte[ImageSize(Turned(image.header))];
    MovePixels(TurnRight, image.data, W, H, out);
    result := new Bitmap(Turned(image.header), out);
  }

  /** rotate_left: the turned header; column j of the result is row height - 1 - j of the source. */
  method RotateLeft(image: Bitmap?) returns (result: Bitmap?)
    requires image != null ==> Sound(image)
    requires image != null ==> RowSize(image.header.height) * image.header.width <= ImageSize(Turned(image.header))
    ensures image == null <==> result == null
    ensures result != null ==>
      && fresh(result) && fresh(result.data)
      && result.header == Turned(image.header)
      && result.data.Length == ImageSize(Turned(image.header))
      && Moved(TurnLeft, image.header.width, image.header.height, image.data[..], result.data[..])
  {
    if image == null {
      return null;
    }
    var W, H := image.header.width, image.header.height;
    MulMonotone(0, 0, RowSize(H), W);
    var out := new byte[ImageSize(Turned(image.header))];
    MovePixels(TurnLeft, image.data, W, H, out);
    result := new Bitmap(Turned(image.header), out);
  }

  /** A header whose image_size field is 0 sizes the turned buffer by the turned dimensions. */
  lemma TurnedSizeFits(h: Header)
    requires WellFormed(h) && h.width >= 0 && h.height >= 0 && h.imageSize == 0
    ensures ImageSize(Turned(h)) == RowSize(h.height) * h.width
  {
  }

  // ---------------------------------------------------------------------------------
  // crop
  // ---------------------------------------------------------------------------------

  /**
   * The guard of crop: a non-empty window that ends strictly before the last column and row.
   * x + w and y + h are unsigned, so the LONG width and height are compared as unsigned
   * values too: a negative dimension counts as 2^32 plus it.
   */
  predicate CropFits(hd: Header, x: int, y: int, h: int, w: int)
  {
    x + w < hd.width % TWO_32 && y + h < hd.height % TWO_32 && h >= 1 && w >= 1
  }

  /** The header of a crop: the window's size, image_size recomputed for it, size = 54 + image_size. */
  function CroppedHeader(hd: Header, h: int, w: int): Header
    requires 0 <= h && 0 <= w
  {
    MulMonotone(0, 0, RowSize(w), h);
    hd.(width := w, height := h, imageSize := RowSize(w) * h, size := HEADER_SIZE + RowSize(w) * h)
  }

  /** b holds the h x w window of the W-wide image a whose lower left pixel is (row y, column x). */
  predicate Cropped(W: int, x: int, y: int, h: int, w: int, a: seq<byte>, b: seq<byte>)
  {
    forall i, j | 0 <= i < h && 0 <= j < w :: PixelCopied(b, Offset(w, i, j), a, Offset(W, i + y, j + x))
  }

  /**
   * What crop's row copies need of an image whose header is hd and whose buffer holds n bytes:
   * every row of the window, 3 * w bytes from Offset(width, y + i, x), lies in the buffer, and
   * the crop's own pixel rows fit a LONG.
   */
  predicate CropReadable(hd: Header, n: int, x: int, y: int, h: int, w: int)
  {
    && WellFormed(hd) && 0 <= h && 0 <= w && RowSize(w) * h < TWO_31
    && forall i | 0 <= i < h :: RowInBuffer(hd.width, n, x, y, w, i)
  }

  /** Row i of the window, 3 * w bytes from Offset(W, y + i, x), lies in a buffer of n bytes. */
  predicate RowInBuffer(W: int, n: int, x: int, y: int, w: int, i: int)
  {
    0 <= Offset(W, i + y, x) && Offset(W, i + y, x) + 3 * w <= n
  }

  /** A window that reaches the last column or the last row is refused, the whole image included. */
  lemma CropRejectsEdge(hd: Header, x: int, y: int, h: int, w: int)
    requires WellFormed(hd) && 0 <= x && 0 <= y && 0 <= h && 0 <= w
    requires x + w == hd.width || y + h == hd.height
    ensures !CropFits(hd, x, y, h, w)
  {
  }

  /** A crop whose pixel rows fit a LONG has a well-formed header whose get_image_size is those rows. */
  lemma CroppedHeaderSize(hd: Header, h: int, w: int)
    requires WellFormed(hd) && 1 <= h && 1 <= w && RowSize(w) * h < TWO_31
    ensures WellFormed(CroppedHeader(hd, h, w))
    ensures 0 < RowSize(w) * h && ImageSize(CroppedHeader(hd, h, w)) == RowSize(w) * h
  {
    MulMonotone(1, 1, RowSize(w), h);
  }

  /** A crop of a sound image has a well-formed header whose get_image_size is the window's rows. */
  lemma CroppedSize(hd: Header, x: int, y: int, h: int, w: int)
    requires WellFormed(hd) && 0 <= hd.width && 0 <= hd.height && RowSize(hd.width) * hd.height < TWO_31
    requires 0 <= x && 0 <= y && CropFits(hd, x, y, h, w)
    ensures WellFormed(CroppedHeader(hd, h, w))
    ensures 0 < RowSize(w) * h < TWO_31 && ImageSize(CroppedHeader(hd, h, w)) == RowSize(w) * h
  {
    SmallUnsigned(hd.width);
    SmallUnsigned(hd.height);
    BufferMonotone(w, h, hd.width, hd.height);
    CroppedHeaderSize(hd, h, w);
  }

  /** On a sound image every window the guard lets through can be read. */
  lemma SoundCropReadable(image: Bitmap, x: int, y: int, h: int, w: int)
    requires Sound(image) && 0 <= x && 0 <= y && CropFits(image.header, x, y, h, w)
    ensures CropReadable(image.header, image.data.Length, x, y, h, w)
  {
    var hd := image.header;
    var W, H := hd.width, hd.height;
    SmallUnsigned(W);
    SmallUnsigned(H);
    BufferMonotone(w, h, W, H);
    forall i | 0 <= i < h
      ensures RowInBuffer(W, image.data.Length, x, y, w, i)
    {
      SoundRowInBuffer(W, H, image.data.Length, x, y, w, i);
    }
  }

  /** A non-negative LONG reads the same as an unsigned number. */
  lemma SmallUnsigned(v: int)
    requires 0 <= v < TWO_31
    ensures v % TWO_32 == v
  {
  }

  /** A row of a window inside a W x H image lies inside its RowSize(W) * H bytes. */
  lemma SoundRowInBuffer(W: int, H: int, n: int, x: int, y: int, w: int, i: int)
    requires 0 <= x && 1 <= w && x + w <= W && 0 <= i && 0 <= y && i + y < H && RowSize(W) * H <= n
    ensures RowInBuffer(W, n, x, y, w, i)
  {
    OffsetWithin(W, H, i + y, x);
    OffsetWithin(W, H, i + y, x + w - 1);
    assert Offset(W, i + y, x + w - 1) + 3 == Offset(W, i + y, x) + 3 * w;
  }

  /**
   * A header with width -1 and height 5: the unsigned guard lets crop(0, 0, 1, 1) through,
   * and get_row_size(-1) is 0, so every row of the window is bytes 0 to 2 of the buffer.
   */
  lemma NegativeWidthCrop(hd: Header)
    requires WellFormed(hd) && hd.width == -1 && hd.height == 5 && hd.imageSize == 12
    ensures RowSize(-1) == 0 && ImageSize(hd) == 12
    ensures CropFits(hd, 0, 0, 1, 1) && CropReadable(hd, 12, 0, 0, 1, 1)
  {
    assert RowSize(1) == 4;
  }

  /** Cropping a crop is one crop whose corner is the sum of the two corners. */
  lemma CropTwice(W: int, x1: int, y1: int, h1: int, w1: int, x2: int, y2: int, h2: int, w2: int,
                  a: seq<byte>, b: seq<byte>, c: seq<byte>)
    requires 0 <= x2 && 0 <= y2 && x2 + w2 <= w1 && y2 + h2 <= h1
    requires Cropped(W, x1, y1, h1, w1, a, b) && Cropped(w1, x2, y2, h2, w2, b, c)
    ensures Cropped(W, x1 + x2, y1 + y2, h2, w2, a, c)
  {
    forall i, j | 0 <= i < h2 && 0 <= j < w2
      ensures PixelCopied(c, Offset(w2, i, j), a, Offset(W, i + (y1 + y2), j + (x1 + x2)))
    {
      assert PixelCopied(c, Offset(w2, i, j), b, Offset(w1, i + y2, j + x2));
      assert PixelCopied(b, Offset(w1, i + y2, j + x2), a, Offset(W, i + y2 + y1, j + x2 + x1));
    }
  }

  /** The row loop of crop: one memcpy of 3 * w bytes per row of the window. */
  method CopyWindow(src: array<byte>, W: int, x: int, y: int, h: int, w: int, dst: array<byte>)
    requires src != dst && 1 <= h && 1 <= w
    requires forall i | 0 <= i < h :: RowInBuffer(W, src.Length, x, y, w, i)
    requires RowSize(w) * h <= dst.Length
    modifies dst
    ensures Cropped(W, x, y, h, w, src[..], dst[..])
  {
    var i := 0;
    while i < h
      invariant 0 <= i <= h
      invariant Cropped(W, x, y, i, w, src[..], dst[..])
    {
      CopyWindowRow(src, W, x, y, h, w, dst, i);
      i := i + 1;
    }
  }

  /** One pass of crop's row loop: row i of the window is copied and the rows before it are kept. */
  method CopyWindowRow(src: array<byte>, W: int, x: int, y: int, h: int, w: int, dst: array<byte>, i: int)
    requires src != dst && 1 <= w && 0 <= i < h
    requires RowInBuffer(W, src.Length, x, y, w, i)
    requires RowSize(w) * h <= dst.Length
    requires Cropped(W, x, y, i, w, src[..], dst[..])
    modifies dst
    ensures Cropped(W, x, y, i + 1, w, src[..], dst[..])
  {
    var d, s := Offset(w, i, 0), Offset(W, i + y, x);
    RowWithin(w, h, i);
    OffsetsBefore(w, i, 0);
    ghost var before := dst[..];
    CopyBytes(dst, d, src, s, 3 * w);
    forall i', j | 0 <= i' < i + 1 && 0 <= j < w
      ensures PixelCopied(dst[..], Offset(w, i', j), src[..], Offset(W, i' + y, j + x))
    {
      if i' < i {
        assert PixelCopied(before, Offset(w, i', j), src[..], Offset(W, i' + y, j + x));
      } else {
        assert Offset(w, i, j) == d + 3 * j && Offset(W, i + y, j + x) == s + 3 * j;
      }
    }
  }

  /** crop(image, x, y, h, w), the unsigned arguments kept below 2^32 and their sums unwrapped. */
  method Crop(image: Bitmap?, x: int, y: int, h: int, w: int) returns (result: Bitmap?)
    requires 0 <= x < TWO_32 && 0 <= y < TWO_32 && 0 <= h < TWO_32 && 0 <= w < TWO_32
    requires x + w < TWO_32 && y + h < TWO_32
    requires image != null && CropFits(image.header, x, y, h, w) ==>
               CropReadable(image.header, image.data.Length, x, y, h, w)
    ensures result == null <==> image == null || !CropFits(image.header, x, y, h, w)
    ensures result != null ==>
      && fresh(result) && fresh(result.data)
      && result.header == CroppedHeader(image.header, h, w)
      && result.data.Length == RowSize(w) * h
      && Cropped(image.header.width, x, y, h, w, image.data[..], result.data[..])
  {
    if image == null || !CropFits(image.header, x, y, h, w) {
      return null;
    }
    var hd := image.header;
    CroppedHeaderSize(hd, h, w);
    var out := new byte[ImageSize(CroppedHeader(hd, h, w))];
    CopyWindow(image.data, hd.width, x, y, h, w, out);
    result := new Bitmap(CroppedHeader(hd, h, w), out);
  }

  // ---------------------------------------------------------------------------------
  // scale
  // ---------------------------------------------------------------------------------

  /** scale: a factor <= 0 fails and factor 1 copies get_image_size(header) bytes; other factors are not modelled. */
  method Scale(image: Bitmap?, factor: real) returns (result: Bitmap?)
    requires image != null && factor > 0.0 ==> Copyable(image)
    requires factor <= 0.0 || factor == 1.0
    ensures result == null <==> image == null || factor <= 0.0
    ensures result != null ==>
      && fresh(result) && fresh(result.data)
      && result.header == image.header
      && result.data[..] == image.data[..ImageSize(image.header)]
  {
    if image == null || factor <= 0.0 {
      return null;
    }
    result := Copy(image);
  }

  /** A fresh image with the same header and the first get_image_size(header) bytes of the buffer. */
  method Copy(image: Bitmap) returns (result: Bitmap)
    requires Copyable(image)
    ensures fresh(result) && fresh(result.data)
    ensures result.header == image.header && result.data[..] == image.data[..ImageSize(image.header)]
  {
    var n := ImageSize(image.header);
    var out := new byte[n];
    CopyBytes(out, 0, image.data, 0, n);
    assert out[..] == image.data[..n];
    result := new Bitmap(image.header, out);
  }

  // ---------------------------------------------------------------------------------
  // extract
  // ---------------------------------------------------------------------------------

  /** The letters extract accepts: 'b', 'g' and 'r' keep bytes 0, 1 and 2 of every pixel. */
  const LETTERS: seq<char> := "bgr"

  /** Every character of the colour string is one of the three letters. */
  predicate ValidColors(colors: seq<char>)
  {
    forall k | 0 <= k < |colors| :: colors[k] in LETTERS
  }

  /** Which of the three channels the colour string names. */
  function Kept(colors: seq<char>): seq<bool>
  {
    [LETTERS[0] in colors, LETTERS[1] in colors, LETTERS[2] in colors]
  }

  /**
   * The switch loop of extract over the characters of a C string (its terminating
   * NUL is the end of the sequence): fails on the first character that is not a
   * letter, otherwise sets saveColor for each letter and clears keepAll on any.
   */
  method ParseColors(colors: seq<char>) returns (ok: bool, save: seq<bool>, keepAll: bool)
    requires forall k | 0 <= k < |colors| :: colors[k] != '\0'
    ensures ok <==> ValidColors(colors)
    ensures ok ==> save == Kept(colors) && (keepAll <==> colors == [])
  {
    save, keepAll := [false, false, false], true;
    var i := 0;
    while i < |colors|
      invariant 0 <= i <= |colors|
      invariant ValidColors(colors[..i])
      invariant save == Kept(colors[..i]) && (keepAll <==> i == 0)
    {
      assert colors[..i + 1] == colors[..i] + [colors[i]];
      match colors[i] {
        case 'b' => save, keepAll := save[0 := true], false;
        case 'g' => save, keepAll := save[1 := true], false;
        case 'r' => save, keepAll := save[2 := true], false;
        case _ =>
          assert colors[i] !in LETTERS;
          return false, save, keepAll;
      }
      i := i + 1;
    }
    assert colors[..i] == colors;
    ok := true;
  }

  /** Byte p of the extracted W x H image: a byte of a kept channel of a pixel is a's byte, any other byte is 0. */
  function ExtractedByte(W: int, H: int, save: seq<bool>, a: seq<byte>, p: int): byte
    requires |save| == 3 && 0 <= W && 0 <= H && RowSize(W) * H <= |a|
  {
    if 0 < W && 0 <= p < RowSize(W) * H && p % RowSize(W) < 3 * W && save[p % RowSize(W) % 3] then a[p] else 0
  }

  /** Byte k of pixel (i, j) of the extracted image is the source's byte if channel k is kept, else 0. */
  lemma ExtractedPixel(W: int, H: int, save: seq<bool>, a: seq<byte>, i: int, j: int, k: int)
    requires |save| == 3 && 0 <= W && 0 <= H && RowSize(W) * H <= |a|
    requires 0 <= i < H && 0 <= j < W && 0 <= k < 3
    ensures 0 <= Offset(W, i, j) + k < RowSize(W) * H
    ensures ExtractedByte(W, H, save, a, Offset(W, i, j) + k) == if save[k] then a[Offset(W, i, j) + k] else 0
  {
    var R, p := RowSize(W), Offset(W, i, j) + k;
    OffsetWithin(W, H, i, j);
    DivModParts(i, R, 3 * j + k);
    assert p == i * R + (3 * j + k);
    assert p % R == 3 * j + k;
    DivModParts(j, 3, k);
    assert p % R % 3 == k;
  }

  /** The padding bytes at the end of row i of the extracted image are 0. */
  lemma ExtractedPadding(W: int, H: int, save: seq<bool>, a: seq<byte>, i: int)
    requires |save| == 3 && 0 <= W && 0 <= H && RowSize(W) * H <= |a| && 0 <= i
    ensures forall p | Offset(W, i, W) <= p < Offset(W, i + 1, 0) :: ExtractedByte(W, H, save, a, p) == 0
  {
    var R := RowSize(W);
    assert R * (i + 1) == R * i + R;
    forall p | Offset(W, i, W) <= p < Offset(W, i + 1, 0)
      ensures ExtractedByte(W, H, save, a, p) == 0
    {
      DivModParts(i, R, p - R * i);
      assert i * R == R * i;
    }
  }

  /** "bgr" keeps every pixel byte and still zeroes the padding. */
  lemma ExtractAllChannels(W: int, H: int, a: seq<byte>, i: int, j: int)
    requires 0 <= W && 0 <= H && RowSize(W) * H <= |a| && 0 <= i < H && 0 <= j < W
    ensures Kept("bgr") == [true, true, true]
    ensures 0 <= Offset(W, i, j) && Offset(W, i, j) + 3 <= RowSize(W) * H
    ensures ExtractedByte(W, H, Kept("bgr"), a, Offset(W, i, j)) == a[Offset(W, i, j)]
    ensures ExtractedByte(W, H, Kept("bgr"), a, Offset(W, i, j) + 1) == a[Offset(W, i, j) + 1]
    ensures ExtractedByte(W, H, Kept("bgr"), a, Offset(W, i, j) + 2) == a[Offset(W, i, j) + 2]
    ensures forall p | Offset(W, i, W) <= p < Offset(W, i + 1, 0) :: ExtractedByte(W, H, Kept("bgr"), a, p) == 0
  {
    var save := Kept("bgr");
    OffsetWithin(W, H, i, j);
    assert "bgr"[0] == 'b' && "bgr"[1] == 'g' && "bgr"[2] == 'r';
    assert save == [true, true, true];
    ExtractedPixel(W, H, save, a, i, j, 0);
    ExtractedPixel(W, H, save, a, i, j, 1);
    ExtractedPixel(W, H, save, a, i, j, 2);
    ExtractedPadding(W, H, save, a, i);
  }

  /** The nested loops of extract, over a zeroed buffer, with the real width and height of the image. */
  method KeepChannels(src: array<byte>, W: int, H: int, save: seq<bool>, dst: array<byte>)
    requires src != dst && |save| == 3 && 0 <= W && 0 <= H
    requires RowSize(W) * H <= src.Length && RowSize(W) * H <= dst.Length
    requires forall p | 0 <= p < dst.Length :: dst[p] == 0
    modifies dst
    ensures forall p | 0 <= p < dst.Length :: dst[p] == ExtractedByte(W, H, save, src[..], p)
  {
    var i := 0;
    while i < H
      invariant 0 <= i <= H
      invariant forall p | 0 <= p < dst.Length ::
        dst[p] == if p < Offset(W, i, 0) then ExtractedByte(W, H, save, src[..], p) else 0
    {
      var j := 0;
      while j < W
        invariant 0 <= j <= W
        invariant forall p | 0 <= p < dst.Length ::
          dst[p] == if p < Offset(W, i, j) then ExtractedByte(W, H, save, src[..], p) else 0
      {
        KeepPixel(src, W, H, save, dst, i, j);
        j := j + 1;
      }
      ExtractedPadding(W, H, save, src[..], i);
      i := i + 1;
    }
  }

  /** The innermost loop of extract: the three bytes of pixel (i, j), each kept or zeroed by its channel. */
  method KeepPixel(src: array<byte>, W: int, H: int, save: seq<bool>, dst: array<byte>, i: int, j: int)
    requires src != dst && |save| == 3 && 0 <= i < H && 0 <= j < W
    requires RowSize(W) * H <= src.Length && RowSize(W) * H <= dst.Length
    requires forall p | 0 <= p < dst.Length ::
      dst[p] == if p < Offset(W, i, j) then ExtractedByte(W, H, save, src[..], p) else 0
    modifies dst
    ensures forall p | 0 <= p < dst.Length ::
      dst[p] == if p < Offset(W, i, j) + 3 then ExtractedByte(W, H, save, src[..], p) else 0
  {
    var k := 0;
    while k < 3
      invariant 0 <= k <= 3
      invariant forall p | 0 <= p < dst.Length ::
        dst[p] == if p < Offset(W, i, j) + k then ExtractedByte(W, H, save, src[..], p) else 0
    {
      ExtractedPixel(W, H, save, src[..], i, j, k);
      var p := Offset(W, i, j) + k;
      dst[p] := if save[k] then src[p] else 0;
      k := k + 1;
    }
  }

  /** extract(image, colors): same header; an empty colour string copies the buffer, otherwise channels are masked. */
  method Extract(image: Bitmap?, colors: seq<char>) returns (result: Bitmap?)
    requires forall k | 0 <= k < |colors| :: colors[k] != '\0'
    requires image != null && ValidColors(colors) ==> Copyable(image)
    requires image != null && ValidColors(colors) && colors != [] ==> Sound(image)
    ensures result == null <==> image == null || !ValidColors(colors)
    ensures result != null ==>
      && fresh(result) && fresh(result.data)
      && result.header == image.header
      && result.data.Length == ImageSize(image.header)
    ensures result != null && colors == [] ==> result.data[..] == image.data[..ImageSize(image.header)]
    ensures result != null && colors != [] ==>
      forall p | 0 <= p < result.data.Length ::
        result.data[p] == ExtractedByte(image.header.width, image.header.height, Kept(colors), image.data[..], p)
  {
    if image == null {
      return null;
    }
    var ok, save, keepAll := ParseColors(colors);
    if !ok {
      return null;
    }
    if keepAll {
      result := Copy(image);
      return;
    }
    var W, H := image.header.width, image.header.height;
    var out := new byte[ImageSize(image.header)](_ => 0);
    KeepChannels(image.data, W, H, save, out);
    result := new Bitmap(image.header, out);
  }

  // ---------------------------------------------------------------------------------
  // The code as written, where it differs from the model above
  // ---------------------------------------------------------------------------------

  /**
   * The source offsets transformations.c computes: width - j, height - i, height - i
   * and width - j where the pixel exists only up to width - 1 and height - 1.
   */
  function SourceOffsetAsWritten(m: Motion, W: int, H: int, i: int, j: int): int
  {
    match m
    case MirrorColumns => Offset(W, i, W - j)
    case MirrorRows => Offset(W, H - i, j)
    case TurnRight => Offset(W, j, W - i)
    case TurnLeft => Offset(W, H - j, i)
  }

  /** Every read of the code as written is one pixel (mirror columns, turn right) or one row too far. */
  lemma AsWrittenOneTooFar(m: Motion, W: int, H: int, i: int, j: int)
    ensures SourceOffsetAsWritten(m, W, H, i, j)
      == SourceOffset(m, W, H, i, j) + if m.MirrorColumns? || m.TurnRight? then 3 else RowSize(W)
  {
  }

  /**
   * The first pixel the code as written copies is not a pixel of the source: it lies past
   * the last pixel of row 0, or at the end of the pixel rows.
   */
  lemma AsWrittenFirstRead(m: Motion, W: int, H: int)
    requires 0 < W && 0 < H
    ensures m.MirrorColumns? || m.TurnRight? ==> SourceOffsetAsWritten(m, W, H, 0, 0) == Offset(W, 0, W)
    ensures m.MirrorRows? || m.TurnLeft? ==> SourceOffsetAsWritten(m, W, H, 0, 0) == RowSize(W) * H
  {
  }

  /** A 4 x 1 image has no padding: the first pixel flip_horizontally reads is past its 12 bytes. */
  lemma MirrorOverrun()
    ensures SourceOffsetAsWritten(MirrorColumns, 4, 1, 0, 0) == 12 == RowSize(4) * 1
  {
  }

  /**
   * A header with width 5, height 1 and image_size 16 is consistent, but the turned header
   * keeps image_size 16 while the turned pixel rows take 20 bytes.
   */
  lemma StaleTurnedSize(hd: Header)
    requires hd.width == 5 && hd.height == 1 && hd.imageSize == 16
    ensures ImageSize(hd) == RowSize(5) * 1 == 16
    ensures ImageSize(Turned(hd)) == 16 < RowSize(1) * 5 == 20
  {
  }

  /** The byte extract writes for loop indices (i, j, k): the loops run over the exchanged width and height. */
  function ExtractOffsetAsWritten(W: int, H: int, i: int, j: int, k: int): int
  {
    i * RowSize(H) + j * 3 + k
  }

  /** On a square image the exchanged dimensions do no harm. */
  lemma ExtractAsWrittenSquare(W: int, i: int, j: int, k: int)
    ensures ExtractOffsetAsWritten(W, W, i, j, k) == Offset(W, i, j) + k
  {
  }

  /** On a 5 x 2 image the last byte written (i = 4, j = 1, k = 2) is past the 32 bytes of pixel rows. */
  lemma ExtractAsWrittenOverrun()
    ensures ExtractOffsetAsWritten(5, 2, 4, 1, 2) == 37 && RowSize(5) * 2 == 32
  {
  }

  /** On a 5 x 2 image byte 0 of pixel (row 0, column 2) is never written, so it stays 0 whatever is kept. */
  lemma ExtractAsWrittenSkips()
    ensures Offset(5, 0, 2) == 6
    ensures forall i, j, k | 0 <= i < 5 && 0 <= j < 2 && 0 <= k < 3 :: ExtractOffsetAsWritten(5, 2, i, j, k) != 6
  {
    assert RowSize(2) == 8;
  }
}
