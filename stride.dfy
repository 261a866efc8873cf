/** Row-stride arithmetic of bmp.c: 3 bytes per pixel, rows padded to a multiple of 4. */
module Stride {
  import opened Bytes
  import opened BmpHeader

  /** C's `%`, which truncates toward zero, for a positive divisor. */
  function CRem(a: int, b: int): (r: int)
    requires b > 0
    ensures a >= 0 ==> 0 <= r < b
    ensures a < 0 ==> -b < r <= 0
    ensures (a - r) % b == 0
  {
    CRemCongruent(a, b);
    if a >= 0 then a % b else -((-a) % b)
  }

  lemma CRemCongruent(a: int, b: int)
    requires b > 0
    ensures a >= 0 ==> (a - a % b) % b == 0
    ensures a < 0 ==> (a + (-a) % b) % b == 0
  {
    if a >= 0 {
      var q := a / b;
      assert a - a % b == q * b;
      DivModParts(q, b, 0);
    } else {
      var q := (-a) / b;
      assert a + (-a) % b == (-q) * b;
      DivModParts(-q, b, 0);
    }
  }

  /** get_padding: the filler bytes that complete a row of `width` pixels. */
  function Padding(width: int): (p: int)
    ensures width >= 0 ==> 0 <= p < 4 && (width * 3 + p) % 4 == 0
  {
    CRem(4 - CRem(width * 3, 4), 4)
  }

  /** get_row_size: the stride of one row. */
  function RowSize(width: int): (n: int)
    ensures width >= 0 ==> n % 4 == 0 && width * 3 <= n < width * 3 + 4
  {
    width * 3 + Padding(width)
  }

  /**
   * get_image_size: the declared image_size when it is non-zero (read back as a LONG),
   * otherwise the derived size row stride times height.
   */
  function ImageSize(h: Header): (n: int)
    requires h.imageSize < TWO_32
    ensures 0 < h.imageSize < TWO_31 ==> n == h.imageSize
    ensures h.imageSize >= TWO_31 ==> n == h.imageSize - TWO_32 < 0
    ensures h.imageSize == 0 && h.width >= 0 && h.height >= 0 ==> n == RowSize(h.width) * h.height
  {
    if h.imageSize != 0 then ToInt32(h.imageSize) else RowSize(h.width) * h.height
  }

  /** Row strides grow with the width. */
  lemma RowSizeMonotone(a: int, b: int)
    requires 0 <= a <= b
    ensures RowSize(a) <= RowSize(b)
  {
  }

  /** The derived buffer size grows with both dimensions. */
  lemma {:induction false} BufferMonotone(w: int, h: int, W: int, H: int)
    requires 0 <= w <= W && 0 <= h <= H
    ensures 0 <= RowSize(w) * h <= RowSize(W) * H
  {
    RowSizeMonotone(w, W);
    MulMonotone(RowSize(w), h, RowSize(W), H);
  }

  lemma MulMonotone(a: int, b: int, c: int, d: int)
    requires 0 <= a <= c && 0 <= b <= d
    ensures 0 <= a * b <= c * d
  {
    assert a * b <= c * b;
    assert c * b <= c * d;
  }
}
