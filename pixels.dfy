/**
 * The pixel buffer of a BMP as transformations.c addresses it: rows of 3-byte pixels,
 * each row padded to get_row_size(width) bytes, row i starting at get_row_size(width) * i.
 */
module Pixels {
  import opened Bytes
  import opened BmpHeader
  import opened Stride

  /** The first of the three bytes of pixel (row i, column j) in a buffer of width W. */
  function Offset(W: int, i: int, j: int): int
  {
    RowSize(W) * i + 3 * j
  }

  /** Every pixel of a W x H image lies inside its RowSize(W) * H bytes. */
  lemma OffsetWithin(W: int, H: int, i: int, j: int)
    requires 0 <= W && 0 <= i < H && 0 <= j < W
    ensures 0 <= Offset(W, i, j) && Offset(W, i, j) + 3 <= RowSize(W) * H
  {
    var R := RowSize(W);
    MulMonotone(R, i + 1, R, H);
    assert R * (i + 1) == R * i + R;
    MulMonotone(0, 0, R, i);
  }

  /** Pixels are laid out in row-major order: the pixels before (i, j) end at or before Offset(W, i, j). */
  lemma OffsetsBefore(W: int, i: int, j: int)
    requires 0 <= W && 0 <= i && 0 <= j <= W
    ensures forall i', j' | 0 <= i' < i && 0 <= j' < W :: Offset(W, i', j') + 3 <= Offset(W, i, j)
    ensures forall j' | 0 <= j' < j :: Offset(W, i, j') + 3 <= Offset(W, i, j)
  {
    var R := RowSize(W);
    forall i', j' | 0 <= i' < i && 0 <= j' < W
      ensures Offset(W, i', j') + 3 <= Offset(W, i, j)
    {
      MulMonotone(R, i' + 1, R, i);
      assert R * (i' + 1) == R * i' + R;
    }
  }

  /** Row i of a W x H image, 3 * W pixel bytes from Offset(W, i, 0), lies inside its RowSize(W) * H bytes. */
  lemma RowWithin(W: int, H: int, i: int)
    requires 0 <= W && 0 <= i < H
    ensures 0 <= Offset(W, i, 0) && Offset(W, i, 0) + 3 * W <= RowSize(W) * H
  {
    var R := RowSize(W);
    if W > 0 {
      OffsetWithin(W, H, i, W - 1);
      assert Offset(W, i, 0) + 3 * W == Offset(W, i, W - 1) + 3;
    } else {
      assert R == 0;
      assert R * i == 0 && R * H == 0;
    }
  }

  /** The three bytes of the pixel at d in b are those of the pixel at s in a (both inside their buffers). */
  predicate PixelCopied(b: seq<byte>, d: int, a: seq<byte>, s: int)
  {
    && 0 <= d && d + 3 <= |b| && 0 <= s && s + 3 <= |a|
    && b[d] == a[s] && b[d + 1] == a[s + 1] && b[d + 2] == a[s + 2]
  }

  /** memcpy(dst + d, src + s, n) between two distinct buffers. */
  method CopyBytes(dst: array<byte>, d: nat, src: array<byte>, s: nat, n: nat)
    requires dst != src && d + n <= dst.Length && s + n <= src.Length
    modifies dst
    ensures forall k | 0 <= k < dst.Length :: dst[k] == if d <= k < d + n then src[s + k - d] else old(dst[k])
  {
    forall k | d <= k < d + n {
      dst[k] := src[s + k - d];
    }
  }

  /** struct bmp_image as the transformations receive and return it: a header and a pixel buffer. */
  class Bitmap {
    const header: Header
    const data: array<byte>

    constructor (header: Header, data: array<byte>)
      ensures this.header == header && this.data == data
    {
      this.header := header;
      this.data := data;
    }
  }

  /**
   * What a memcpy of the whole image needs (scale by 1, extract of every channel):
   * a well-formed header whose get_image_size bytes are in the buffer.
   */
  predicate Copyable(image: Bitmap)
  {
    WellFormed(image.header) && 0 <= ImageSize(image.header) <= image.data.Length
  }

  /**
   * What the transformations assume of an image: non-negative dimensions whose rows fit
   * get_image_size(header) without overflowing a LONG, and a buffer holding that many bytes.
   */
  predicate Sound(image: Bitmap)
  {
    && WellFormed(image.header)
    && image.header.width >= 0 && image.header.height >= 0
    && 0 <= RowSize(image.header.width) * image.header.height <= ImageSize(image.header) <= image.data.Length
    && RowSize(image.header.width) * image.header.height < TWO_31
  }
}
