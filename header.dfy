/**
 * The 54-byte BMP header read by `fread(H, sizeof(HEADER), 1, stream)`:
 * a BITMAPFILEHEADER followed by a BITMAPINFOHEADER, packed, little-endian.
 * The fields the code reads or writes are typed; the rest are kept as opaque bytes.
 */
module BmpHeader {
  import opened Bytes

  const HEADER_SIZE: nat := 54
  /** "BM" read as a little-endian WORD, and its byte swap (bmp.c:11-12). */
  const BM: nat := 0x4D42
  const MB: nat := 0x424D

  /**
   * Offsets: `magic` (C field `type`) 0-1, `size` 2-5, `offsetInfo` 6-17 (reserved words,
   * pixel-data offset, info-header size), `width` 18-21, `height` 22-25, `formatInfo` 26-33
   * (planes, bit count, compression), `imageSize` (C field `image_size`) 34-37,
   * `trailer` 38-53 (resolution and palette counts).
   */
  datatype Header = Header(
    magic: nat,
    size: nat,
    offsetInfo: seq<byte>,
    width: int,
    height: int,
    formatInfo: seq<byte>,
    imageSize: nat,
    trailer: seq<byte>)

  predicate WellFormed(h: Header)
  {
    && h.magic < TWO_16
    && h.size < TWO_32
    && |h.offsetInfo| == 12
    && -TWO_31 <= h.width < TWO_31
    && -TWO_31 <= h.height < TWO_31
    && |h.formatInfo| == 8
    && h.imageSize < TWO_32
    && |h.trailer| == 16
  }

  predicate ValidMagic(magic: nat)
  {
    magic == BM || magic == MB
  }

  function Serialize(h: Header): (b: seq<byte>)
    requires WellFormed(h)
    ensures |b| == HEADER_SIZE
    ensures U16(b, 0) == h.magic
  {
    LE16(h.magic) + LE32(h.size) + h.offsetInfo + LE32Signed(h.width) + LE32Signed(h.height)
      + h.formatInfo + LE32(h.imageSize) + h.trailer
  }

  /** The header as the C struct sees the 54 bytes it was read into. */
  function Parse(b: seq<byte>): (h: Header)
    requires |b| == HEADER_SIZE
    ensures WellFormed(h)
    ensures h.magic == b[0] as int + 256 * b[1] as int
    ensures Serialize(h) == b
  {
    BytesOfLE16(b, 0);
    BytesOfLE32(b, 2);
    BytesOfLE32Signed(b, 18);
    BytesOfLE32Signed(b, 22);
    BytesOfLE32(b, 34);
    assert b == b[0..2] + b[2..6] + b[6..18] + b[18..22] + b[22..26] + b[26..34] + b[34..38] + b[38..54];
    Header(U16(b, 0), U32(b, 2), b[6..18], I32(b, 18), I32(b, 22), b[26..34], U32(b, 34), b[38..54])
  }

  /** The first byte of the record is the low byte of the magic. */
  lemma SerializeStart(h: Header)
    requires WellFormed(h)
    ensures Serialize(h)[0] == h.magic % 256
  {
    assert Serialize(h)[0] == LE16(h.magic)[0];
  }

  lemma U32Within(b: seq<byte>, at: nat)
    requires at + 4 <= |b|
    ensures U32(b, at) == U32(b[at..at + 4], 0) && I32(b, at) == I32(b[at..at + 4], 0)
  {
  }

  lemma {:induction false} ParseSerialize(h: Header)
    requires WellFormed(h)
    ensures Parse(Serialize(h)) == h
  {
    var b := Serialize(h);
    assert b[2..6] == LE32(h.size);
    assert b[6..18] == h.offsetInfo;
    assert b[18..22] == LE32Signed(h.width);
    assert b[22..26] == LE32Signed(h.height);
    assert b[26..34] == h.formatInfo;
    assert b[34..38] == LE32(h.imageSize);
    assert b[38..54] == h.trailer;
    U32Within(b, 2);
    U32Within(b, 18);
    U32Within(b, 22);
    U32Within(b, 34);
  }
}
