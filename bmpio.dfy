/**
 * The two transports of bmp.c over a FILE* modelled as the bytes of the stream, a
 * read position and whether the stream can report that position (ftell). A BMP travels either raw (the 54 header bytes, then the pixel
 * buffer) or as Base64 text of the whole file, which starts with 'Q' when the magic is "BM".
 */
module BmpIO {
  import opened Bytes
  import opened Wrappers
  import opened BmpHeader
  import opened Stride
  import Base64

  /** The characters read for a Base64 header: 54 bytes are 18 groups of 4 symbols. */
  const TEXT_HEADER_SIZE: nat := 72
  /** 'Q', the first symbol of the Base64 text of "BM". */
  const Q: byte := 0x51

  /**
   * An open stream: all its bytes, the position of the next read, and whether it is
   * seekable (a file) or not (a pipe, such as the stdin that main.c reads).
   */
  datatype Stream = Stream(content: seq<byte>, pos: nat, seekable: bool)

  /** ftell: the position of a seekable stream, -1 for a pipe. */
  function Tell(s: Stream): (t: int)
    ensures s.seekable ==> t == s.pos
    ensures !s.seekable ==> t < 0
  {
    if s.seekable then s.pos else -1
  }

  /** A read's value (None where the C code returns NULL) and the stream after it. */
  datatype Outcome<T> = Outcome(result: Option<T>, rest: Stream)

  /** struct bmp_image: the header and the pixel buffer. */
  datatype Image = Image(header: Header, data: seq<byte>)

  /** Where write_bmp writes: a file (raw) or stdout (Base64 text). */
  datatype Target = File | Stdout

  /** What write_bmp returns and the bytes it has written to the stream. */
  datatype Written = Written(ok: bool, output: seq<byte>)

  function Min(a: nat, b: nat): nat
  {
    if a <= b then a else b
  }

  /**
   * fread(buf, n, 1, stream) == 1: it succeeds when n > 0 bytes remain; a short read
   * still consumes what is left of the stream.
   */
  function Read(s: Stream, n: nat): (r: Outcome<seq<byte>>)
    requires s.pos <= |s.content|
    ensures r.rest.content == s.content && r.rest.seekable == s.seekable && s.pos <= r.rest.pos <= |s.content|
    ensures r.result.Some? <==> 0 < n && s.pos + n <= |s.content|
    ensures r.result.Some? ==> r.result.value == s.content[s.pos..s.pos + n] && r.rest.pos == s.pos + n
  {
    var next := Stream(s.content, Min(s.pos + n, |s.content|), s.seekable);
    if 0 < n && s.pos + n <= |s.content| then Outcome(Some(s.content[s.pos..s.pos + n]), next)
    else Outcome(None, next)
  }

  /**
   * base64_decode of `text` into a buffer, accepted only when it yields exactly `n`
   * bytes: the test read_bmp_header and read_data apply to its result.
   */
  function DecodeExactly(text: seq<char>, n: nat): (r: Option<seq<byte>>)
    requires n > 0
    ensures r.Some? <==> Base64.DecodedCount(text) == n
    ensures r.Some? ==> Base64.Decode(text) == r && |r.value| == n
  {
    if Base64.DecodedCount(text) != n then None
    else Base64.Decode(text)
  }

  /**
   * read_bmp_header: 54 bytes read as the header struct are accepted when their magic is
   * "BM" or "MB"; otherwise, when the first byte is 'Q', those 54 characters and 18 more
   * are Base64 text that must decode to exactly 54 bytes with a valid magic.
   */
  function ReadHeader(s: Stream): (r: Outcome<Header>)
    requires s.pos <= |s.content|
    ensures r.rest.content == s.content && r.rest.seekable == s.seekable && r.rest.pos <= |s.content|
    ensures r.result.Some? ==> WellFormed(r.result.value) && ValidMagic(r.result.value.magic)
    ensures s.pos + HEADER_SIZE > |s.content| ==> r.result.None?
    ensures s.pos + HEADER_SIZE <= |s.content| && ValidMagic(U16(s.content, s.pos)) ==>
              r.result == Some(Parse(s.content[s.pos..s.pos + HEADER_SIZE])) && r.rest.pos == s.pos + HEADER_SIZE
    ensures s.pos + HEADER_SIZE <= |s.content| && !ValidMagic(U16(s.content, s.pos)) && s.content[s.pos] != Q ==>
              r.result.None?
    ensures r.result.Some? && !ValidMagic(U16(s.content, s.pos)) ==>
              s.content[s.pos] == Q && r.rest.pos == s.pos + TEXT_HEADER_SIZE
  {
    var first := Read(s, HEADER_SIZE);
    if first.result.None? then Outcome(None, first.rest)
    else
      var raw := first.result.value;
      var h := Parse(raw);
      if ValidMagic(h.magic) then Outcome(Some(h), first.rest)
      else if raw[0] != Q then Outcome(None, first.rest)
      else
        var more := Read(first.rest, TEXT_HEADER_SIZE - HEADER_SIZE);
        if more.result.None? then Outcome(None, more.rest)
        else
          match DecodeExactly(AsChars(raw + more.result.value), HEADER_SIZE)
          case None => Outcome(None, more.rest)
          case Some(b) =>
            var decoded := Parse(b);
            if ValidMagic(decoded.magic) then Outcome(Some(decoded), more.rest)
            else Outcome(None, more.rest)
  }

  /** A positive image size is shorter than its Base64 text. */
  lemma TextLonger(n: nat)
    requires n > 0
    ensures Base64.EncodedLength(n) > n
  {
    var q := (n + 2) / 3;
    assert 3 * q + (n + 2) % 3 == n + 2;
  }

  /** The ((n + 2) / 3) * 4 characters of `c` from `start`, decoded to exactly n bytes. */
  function TextData(c: seq<byte>, start: nat, n: nat): Option<seq<byte>>
    requires n > 0 && start + Base64.EncodedLength(n) <= |c|
  {
    DecodeExactly(AsChars(c[start..start + Base64.EncodedLength(n)]), n)
  }

  /**
   * The text branch of read_data once the `n` bytes `first` have been read from `s` starting
   * at `start`: the rest of the ((n + 2) / 3) * 4 characters is read and all of them must
   * decode to exactly n bytes.
   */
  function ReadDataText(s: Stream, start: nat, first: seq<byte>, n: nat): (r: Outcome<seq<byte>>)
    requires n > 0 && |first| == n && s.pos == start + n <= |s.content| && s.content[start..s.pos] == first
    ensures r.rest.content == s.content && r.rest.pos <= |s.content|
    ensures start + Base64.EncodedLength(n) <= |s.content| ==>
              r.result == TextData(s.content, start, n)
              && r.rest.pos == start + Base64.EncodedLength(n)
    ensures start + Base64.EncodedLength(n) > |s.content| ==> r.result.None?
  {
    TextLonger(n);
    var more := Read(s, Base64.EncodedLength(n) - n);
    if more.result.None? then Outcome(None, more.rest)
    else
      assert first + more.result.value == s.content[start..start + Base64.EncodedLength(n)];
      Outcome(DecodeExactly(AsChars(first + more.result.value), n), more.rest)
  }

  /**
   * read_data: get_image_size(header) bytes are read; when ftell then does not report
   * 54 + imageSize (always so on a pipe) the stream is text, and ((imageSize + 2) / 3) * 4
   * characters in all must decode to exactly imageSize bytes.
   */
  function ReadData(s: Stream, h: Header): (r: Outcome<seq<byte>>)
    requires s.pos <= |s.content| && WellFormed(h)
    ensures r.rest.content == s.content && r.rest.pos <= |s.content|
    ensures r.result.Some? ==> |r.result.value| == ImageSize(h) > 0
    ensures ImageSize(h) <= 0 || s.pos + ImageSize(h) > |s.content| ==> r.result.None?
    ensures ImageSize(h) > 0 && s.pos + ImageSize(h) <= |s.content| && s.seekable && s.pos == HEADER_SIZE ==>
              r.result == Some(s.content[s.pos..s.pos + ImageSize(h)]) && r.rest.pos == s.pos + ImageSize(h)
    ensures ImageSize(h) > 0 && !(s.seekable && s.pos == HEADER_SIZE) && s.pos + Base64.EncodedLength(ImageSize(h)) <= |s.content| ==>
              r.rest.pos == s.pos + Base64.EncodedLength(ImageSize(h))
    ensures ImageSize(h) > 0 && !(s.seekable && s.pos == HEADER_SIZE) && s.pos + Base64.EncodedLength(ImageSize(h)) <= |s.content| ==>
              r.result == TextData(s.content, s.pos, ImageSize(h))
    ensures ImageSize(h) > 0 && !(s.seekable && s.pos == HEADER_SIZE) && s.pos + Base64.EncodedLength(ImageSize(h)) > |s.content| ==>
              r.result.None?
  {
    var n := ImageSize(h);
    if n <= 0 then Outcome(None, s)
    else
      TextLonger(n);
      var first := Read(s, n);
      if first.result.None? then Outcome(None, first.rest)
      else if Tell(first.rest) == HEADER_SIZE + n then first
      else
        ReadDataText(first.rest, s.pos, first.result.value, n)
  }

  /**
   * read_bmp: the header, refused when its width or height is 0, then the data.
   */
  function ReadBmp(s: Stream): (r: Option<Image>)
    requires s.pos <= |s.content|
    ensures r.Some? ==> WellFormed(r.value.header) && ValidMagic(r.value.header.magic)
    ensures r.Some? ==> r.value.header.width != 0 && r.value.header.height != 0
    ensures r.Some? ==> |r.value.data| == ImageSize(r.value.header) > 0
    ensures ReadHeader(s).result.None? ==> r.None?
    ensures ReadHeader(s).result.Some? && (ReadHeader(s).result.value.width == 0 || ReadHeader(s).result.value.height == 0) ==>
              r.None?
    ensures ReadHeader(s).result.Some? && ReadHeader(s).result.value.width != 0 && ReadHeader(s).result.value.height != 0
            && ReadData(ReadHeader(s).rest, ReadHeader(s).result.value).result.Some? ==>
              r.Some?
    ensures r.Some? ==>
              (Some(r.value.header) == ReadHeader(s).result
               && Some(r.value.data) == ReadData(ReadHeader(s).rest, r.value.header).result)
  {
    var hr := ReadHeader(s);
    match hr.result
    case None => None
    case Some(h) =>
      if h.width == 0 || h.height == 0 then None
      else
        var dr := ReadData(hr.rest, h);
        match dr.result
        case None => None
        case Some(data) => Some(Image(h, data))
  }

  /** What write_bmp demands of its image: the header's buffer size is available in `data`. */
  predicate Writable(img: Image)
  {
    WellFormed(img.header) && ImageSize(img.header) >= 0 && |img.data| >= ImageSize(img.header)
  }

  /** The header bytes followed by get_image_size(header) bytes of the pixel buffer. */
  function FileBytes(img: Image): (b: seq<byte>)
    requires Writable(img)
    ensures |b| == HEADER_SIZE + ImageSize(img.header)
    ensures b[..HEADER_SIZE] == Serialize(img.header)
    ensures b[HEADER_SIZE..] == img.data[..ImageSize(img.header)]
  {
    Serialize(img.header) + img.data[..ImageSize(img.header)]
  }

  /** Base64 text is made of byte-sized characters and can be written to a byte stream. */
  lemma EncodedOctets(x: seq<byte>)
    ensures IsOctetText(Base64.Encode(x))
  {
    Base64.EncodeShape(x);
    var t := Base64.Encode(x);
    var p := t[..|t| - Base64.PadCount(|x|)];
    forall k | 0 <= k < |t|
      ensures t[k] as int < 256
    {
      if k < |p| {
        assert Base64.IsSymbol(p[k]);
      }
    }
  }

  /** The bytes base64_encode writes for `x`, as fwrite puts them on the stream. */
  function TextBytes(x: seq<byte>): (b: seq<byte>)
    ensures AsChars(b) == Base64.Encode(x)
    ensures |b| == Base64.EncodedLength(|x|)
  {
    EncodedOctets(x);
    Base64.EncodeLength(x);
    CharsOfBytes(Base64.Encode(x));
    AsBytes(Base64.Encode(x))
  }

  /**
   * write_bmp: to a file, fwrite of the header and then of imageSize data bytes (the second
   * fails for imageSize 0); to stdout, the Base64 text of the file, the 54 header bytes and
   * then imageSize data bytes. The C code stages header->size bytes for that text instead,
   * which overruns its buffer when the size field is smaller (StagingOverrun).
   */
  function WriteBmp(img: Image, target: Target): (w: Written)
    requires Writable(img)
    ensures target == File ==> (w.ok <==> ImageSize(img.header) > 0)
    ensures target == File && w.ok ==> w.output == FileBytes(img)
    ensures target == File && !w.ok ==> w.output == Serialize(img.header)
    ensures target == Stdout ==> w.ok && w.output == TextBytes(FileBytes(img))
    ensures target == Stdout ==> |w.output| == Base64.EncodedLength(HEADER_SIZE + ImageSize(img.header))
  {
    var h := img.header;
    match target
    case File =>
      if ImageSize(h) == 0 then Written(false, Serialize(h))
      else Written(true, FileBytes(img))
    case Stdout =>
      Written(true, TextBytes(FileBytes(img)))
  }

  /** The buffer write_bmp allocates for the stdout text: header->size bytes. */
  function StagingBuffer(h: Header): nat
  {
    h.size
  }

  /** The bytes write_bmp copies into that buffer: the 54 header bytes, then imageSize data bytes. */
  function StagedBytes(h: Header): int
    requires WellFormed(h)
  {
    HEADER_SIZE + ImageSize(h)
  }

  /**
   * The size field is whatever the file holds: a raw file whose header->size is below
   * 54 + imageSize is read back as an image, and write_bmp to stdout then copies more
   * bytes than the buffer it allocated for them.
   */
  lemma StagingOverrun(img: Image)
    requires Writable(img) && ValidMagic(img.header.magic)
    requires img.header.width != 0 && img.header.height != 0 && ImageSize(img.header) > 0
    requires StagingBuffer(img.header) < StagedBytes(img.header)
    ensures ReadBmp(Stream(FileBytes(img), 0, true)) == Some(Image(img.header, img.data[..ImageSize(img.header)]))
  {
    RawRoundTrip(img);
  }

  /** The smallest case: a 1 x 1 image whose header says size 54 stages 58 bytes in 54. */
  lemma StagingOverrunExample(h: Header)
    requires WellFormed(h) && h.magic == BM && h.width == 1 && h.height == 1
    requires h.imageSize == 0 && h.size == HEADER_SIZE
    ensures ImageSize(h) == 4 && StagingBuffer(h) == 54 && StagedBytes(h) == 58
    ensures ReadBmp(Stream(Serialize(h) + [0, 0, 0, 0], 0, true)) == Some(Image(h, [0, 0, 0, 0]))
  {
    var img := Image(h, [0, 0, 0, 0]);
    assert ImageSize(h) == 4;
    StagingOverrun(img);
    assert img.data[..4] == img.data;
    assert FileBytes(img) == Serialize(h) + [0, 0, 0, 0];
  }

  /**
   * image_size is taken from the file, not checked against the pixel rows: a 2 x 2 image
   * whose image_size says 4 is read back from its 58-byte file, with 4 data bytes where
   * its padded rows take 16.
   */
  lemma ShortImageSizeReads(h: Header)
    requires WellFormed(h) && h.magic == BM && h.width == 2 && h.height == 2 && h.imageSize == 4
    ensures ImageSize(h) == 4 < RowSize(2) * 2 == 16
    ensures ReadBmp(Stream(Serialize(h) + [0, 0, 0, 0], 0, true)) == Some(Image(h, [0, 0, 0, 0]))
  {
    var img := Image(h, [0, 0, 0, 0]);
    assert RowSize(2) == 8;
    assert ImageSize(h) == 4;
    RawRoundTrip(img);
    assert img.data[..4] == img.data;
    assert FileBytes(img) == Serialize(h) + [0, 0, 0, 0];
  }

  /** read_bmp refuses only a width or height of 0: a header with width -1 is read. */
  lemma NegativeWidthReads(h: Header)
    requires WellFormed(h) && h.magic == BM && h.width == -1 && h.height == 5 && h.imageSize == 12
    ensures ReadBmp(Stream(Serialize(h) + seq(12, _ => 0), 0, true)) == Some(Image(h, seq(12, _ => 0)))
  {
    var img := Image(h, seq(12, _ => 0));
    assert ImageSize(h) == 12;
    RawRoundTrip(img);
    assert img.data[..12] == img.data;
    assert FileBytes(img) == Serialize(h) + img.data;
  }

  // ---------------------------------------------------------------- round trips

  /** A raw BMP written to a file reads back, from a seekable stream, as the same header and its image bytes. */
  lemma RawRoundTrip(img: Image)
    requires Writable(img) && ValidMagic(img.header.magic)
    requires img.header.width != 0 && img.header.height != 0 && ImageSize(img.header) > 0
    ensures WriteBmp(img, File).ok
    ensures ReadBmp(Stream(WriteBmp(img, File).output, 0, true))
              == Some(Image(img.header, img.data[..ImageSize(img.header)]))
  {
    var h := img.header;
    var n := ImageSize(h);
    var out := WriteBmp(img, File).output;
    var s := Stream(out, 0, true);
    assert out[..HEADER_SIZE] == Serialize(h);
    ParseSerialize(h);
    assert U16(out, 0) == h.magic;
    var hr := ReadHeader(s);
    assert hr.result == Some(h) && hr.rest == Stream(out, HEADER_SIZE, true);
    assert out[HEADER_SIZE..HEADER_SIZE + n] == img.data[..n];
  }

  /** A raw BMP read from a seekable stream and written back to a file gives the bytes that were read. */
  lemma RawReadWrite(c: seq<byte>, img: Image)
    requires ReadBmp(Stream(c, 0, true)) == Some(img) && ValidMagic(U16(c, 0))
    ensures Writable(img) && WriteBmp(img, File).ok
    ensures WriteBmp(img, File).output == c[..HEADER_SIZE + ImageSize(img.header)]
  {
    var s := Stream(c, 0, true);
    var hr := ReadHeader(s);
    var n := ImageSize(img.header);
    assert c[0..HEADER_SIZE] == c[..HEADER_SIZE];
    assert img.header == Parse(c[..HEADER_SIZE]) && hr.rest == Stream(c, HEADER_SIZE, true);
    assert img.data == c[HEADER_SIZE..HEADER_SIZE + n];
    assert c[..HEADER_SIZE] + c[HEADER_SIZE..HEADER_SIZE + n] == c[..HEADER_SIZE + n];
  }

  /**
   * On a pipe ftell reports no position, so read_data always takes the text branch: a raw
   * file piped in is read as Base64 and refused, its data being shorter than that text.
   */
  lemma PipedRawRefused(img: Image)
    requires Writable(img) && ValidMagic(img.header.magic) && ImageSize(img.header) > 0
    ensures ReadBmp(Stream(WriteBmp(img, File).output, 0, false)).None?
  {
    var h := img.header;
    var out := WriteBmp(img, File).output;
    assert out[..HEADER_SIZE] == Serialize(h);
    ParseSerialize(h);
    assert U16(out, 0) == h.magic;
    assert ReadHeader(Stream(out, 0, false)).rest == Stream(out, HEADER_SIZE, false);
    TextLonger(ImageSize(h));
  }

  /** The first character of the Base64 text of `x` encodes the top six bits of its first byte. */
  lemma FirstSymbol(x: seq<byte>)
    requires |x| > 0
    ensures |Base64.Encode(x)| > 0 && Base64.Encode(x)[0] == Base64.SymbolOf(x[0] / 4)
  {
    Base64.EncodeDigits(x, 0);
  }

  /** Characters and bytes of a stream slice alike. */
  lemma CharsSlice(b: seq<byte>, i: nat, j: nat)
    requires i <= j <= |b|
    ensures AsChars(b[i..j]) == AsChars(b)[i..j]
  {
  }

  /** Bytes starting with 'Q' carry no valid magic, as raw bytes or as the header they parse to. */
  lemma QuotedStart(c: seq<byte>)
    requires |c| >= HEADER_SIZE && c[0] == Q
    ensures !ValidMagic(U16(c, 0)) && !ValidMagic(Parse(c[..HEADER_SIZE]).magic)
  {
    assert c[..HEADER_SIZE][0] == c[0] && c[..HEADER_SIZE][1] == c[1];
  }

  /**
   * The 'Q' branch of read_bmp_header in both directions: a stream at a 'Q' is read as a
   * header exactly when 72 characters remain, they decode to exactly 54 bytes and those
   * carry a valid magic; the header is then the one those bytes parse to.
   */
  lemma QuotedHeader(s: Stream)
    requires s.pos + HEADER_SIZE <= |s.content| && s.content[s.pos] == Q
    ensures s.pos + TEXT_HEADER_SIZE > |s.content| ==> ReadHeader(s).result.None?
    ensures s.pos + TEXT_HEADER_SIZE <= |s.content| ==>
              var t := AsChars(s.content[s.pos..s.pos + TEXT_HEADER_SIZE]);
              && ReadHeader(s).rest.pos == s.pos + TEXT_HEADER_SIZE
              && ReadHeader(s).result
                   == if Base64.DecodedCount(t) == HEADER_SIZE && ValidMagic(Parse(Base64.Decode(t).value).magic)
                      then Some(Parse(Base64.Decode(t).value))
                      else None
  {
    var raw := s.content[s.pos..s.pos + HEADER_SIZE];
    QuotedStart(raw);
    assert raw[..HEADER_SIZE] == raw;
    if s.pos + TEXT_HEADER_SIZE <= |s.content| {
      assert raw + s.content[s.pos + HEADER_SIZE..s.pos + TEXT_HEADER_SIZE] == s.content[s.pos..s.pos + TEXT_HEADER_SIZE];
    }
  }

  /** A stream whose first 72 characters start with 'Q' and decode to a "BM" header is read as that header. */
  lemma TextHeaderReads(c: seq<byte>, h: Header, seekable: bool)
    requires WellFormed(h) && h.magic == BM
    requires |c| >= TEXT_HEADER_SIZE && c[0] == Q
    requires Base64.Decode(AsChars(c[..TEXT_HEADER_SIZE])) == Some(Serialize(h))
    ensures ReadHeader(Stream(c, 0, seekable)) == Outcome(Some(h), Stream(c, TEXT_HEADER_SIZE, seekable))
  {
    QuotedStart(c);
    assert c[..HEADER_SIZE] + c[HEADER_SIZE..TEXT_HEADER_SIZE] == c[..TEXT_HEADER_SIZE];
    ParseSerialize(h);
  }

  /**
   * A stream holding, after position 72, exactly the text of `y` is read as the data `y`:
   * ftell after |y| bytes reports 72 + |y| or, on a pipe, nothing, which sends read_data
   * down the text branch.
   */
  lemma TextDataReads(c: seq<byte>, h: Header, y: seq<byte>, seekable: bool)
    requires WellFormed(h) && ImageSize(h) > 0 && |y| == ImageSize(h)
    requires |c| == TEXT_HEADER_SIZE + Base64.EncodedLength(|y|)
    requires Base64.Decode(AsChars(c[TEXT_HEADER_SIZE..])) == Some(y)
    ensures ReadData(Stream(c, TEXT_HEADER_SIZE, seekable), h).result == Some(y)
  {
    assert c[TEXT_HEADER_SIZE..TEXT_HEADER_SIZE + Base64.EncodedLength(|y|)] == c[TEXT_HEADER_SIZE..];
  }

  /** The text of a 54-byte header followed by `y`: 72 characters for the header, then the text of `y`. */
  lemma TextParts(x: seq<byte>, y: seq<byte>)
    requires |x| == HEADER_SIZE
    ensures |TextBytes(x + y)| == TEXT_HEADER_SIZE + Base64.EncodedLength(|y|)
    ensures AsChars(TextBytes(x + y)[..TEXT_HEADER_SIZE]) == Base64.Encode(x)
    ensures AsChars(TextBytes(x + y)[TEXT_HEADER_SIZE..]) == Base64.Encode(y)
  {
    var out := TextBytes(x + y);
    Base64.EncodeAppend(x, y);
    Base64.EncodeLength(x);
    Base64.EncodeLength(y);
    CharsSlice(out, 0, TEXT_HEADER_SIZE);
    CharsSlice(out, TEXT_HEADER_SIZE, |out|);
    assert out[TEXT_HEADER_SIZE..|out|] == out[TEXT_HEADER_SIZE..];
  }

  /** Text whose first byte is 0x42, the low byte of "BM", starts with 'Q'. */
  lemma TextOfBM(x: seq<byte>)
    requires |x| > 0 && x[0] == 0x42
    ensures |TextBytes(x)| > 0 && TextBytes(x)[0] == Q
  {
    FirstSymbol(x);
    assert Base64.SymbolOf(x[0] / 4) == 'Q';
    assert AsChars(TextBytes(x))[0] == 'Q';
  }

  /** The text of header ++ data starts with 'Q' and its two parts decode to header and data. */
  lemma TextOfFile(h: Header, y: seq<byte>)
    requires WellFormed(h) && h.magic == BM
    ensures |TextBytes(Serialize(h) + y)| == TEXT_HEADER_SIZE + Base64.EncodedLength(|y|)
    ensures TextBytes(Serialize(h) + y)[0] == Q
    ensures Base64.Decode(AsChars(TextBytes(Serialize(h) + y)[..TEXT_HEADER_SIZE])) == Some(Serialize(h))
    ensures Base64.Decode(AsChars(TextBytes(Serialize(h) + y)[TEXT_HEADER_SIZE..])) == Some(y)
  {
    var file := Serialize(h) + y;
    TextParts(Serialize(h), y);
    Base64.DecodeEncode(Serialize(h));
    Base64.DecodeEncode(y);
    SerializeStart(h);
    assert file[0] == 0x42;
    TextOfBM(file);
  }

  /**
   * The text read path inverts the text write path: for the magic "BM", the text read
   * back, from a file or a pipe, through the 'Q' branch of read_bmp_header and the text
   * branch of read_data gives the same header and image bytes.
   */
  lemma TextRoundTrip(img: Image, seekable: bool)
    requires Writable(img) && img.header.magic == BM
    requires img.header.width != 0 && img.header.height != 0 && ImageSize(img.header) > 0
    ensures WriteBmp(img, Stdout).ok
    ensures ReadBmp(Stream(WriteBmp(img, Stdout).output, 0, seekable))
              == Some(Image(img.header, img.data[..ImageSize(img.header)]))
  {
    var h := img.header;
    var y := img.data[..ImageSize(h)];
    var file := FileBytes(img);
    assert file == Serialize(h) + y;
    var out := TextBytes(file);
    TextOfFile(h, y);
    TextHeaderReads(out, h, seekable);
    TextDataReads(out, h, y, seekable);
  }

  /** Text whose first byte is 0x4D starts with 'T' and is refused by read_bmp. */
  lemma TextOfSwapped(x: seq<byte>, seekable: bool)
    requires |x| > 0 && x[0] == 0x4D
    ensures |TextBytes(x)| > 0 && TextBytes(x)[0] == 'T' as int
    ensures ReadBmp(Stream(TextBytes(x), 0, seekable)).None?
  {
    FirstSymbol(x);
    var out := TextBytes(x);
    assert AsChars(out)[0] == 'T';
    if |out| >= HEADER_SIZE {
      assert !ValidMagic(U16(out, 0));
    }
  }

  /**
   * With the byte-swapped magic "MB" the text starts with 'T', which read_bmp_header
   * neither accepts as a raw header nor recognises as text: such a file cannot be read back.
   */
  lemma SwappedMagicText(img: Image, seekable: bool)
    requires Writable(img) && img.header.magic == MB
    ensures WriteBmp(img, Stdout).ok
    ensures WriteBmp(img, Stdout).output[0] == 'T' as int
    ensures ReadBmp(Stream(WriteBmp(img, Stdout).output, 0, seekable)).None?
  {
    var x := FileBytes(img);
    SerializeStart(img.header);
    assert x[0] == Serialize(img.header)[0];
    TextOfSwapped(x, seekable);
  }

  // ---------------------------------------------------------------- decode buffer

  /**
   * read_data decodes the text into `data`, a buffer of imageSize bytes. For an image size
   * that is not a multiple of 3, decoding a valid encoding stores one byte past that buffer
   * while still returning imageSize, so the read succeeds after the overrun.
   */
  lemma DataBufferOverrun(d: seq<byte>)
    requires |d| % 3 != 0
    ensures Base64.Touched(Base64.Encode(d)) == |d| + 1
    ensures Base64.DecodedCount(Base64.Encode(d)) == |d|
  {
    Base64.TouchedByEncoding(d);
    Base64.DecodeEncode(d);
  }

  /** The smallest case: a 1 x 1 image has a 4-byte row, and its text "AAAAAA==" touches 5 bytes. */
  lemma OverrunExample()
    ensures RowSize(1) * 1 == 4
    ensures Base64.Encode([0, 0, 0, 0]) == "AAAAAA=="
    ensures Base64.Touched("AAAAAA==") == 5
  {
    var d: seq<byte> := [0, 0, 0, 0];
    assert Base64.Encode(d) == Base64.EncodeGroup(0, 0, 0) + Base64.Encode(d[3..]);
    assert d[3..] == [0];
    DataBufferOverrun(d);
  }

  /**
   * The decode of read_data with an output buffer of BASE64_DECODE_OUT_SIZE(len) bytes,
   * which base64_decode may fill, instead of the imageSize-byte pixel buffer: it never
   * stores outside the buffer and yields what ReadData yields.
   */
  method DecodeText(text: seq<char>, n: nat) returns (r: Option<seq<byte>>)
    requires n > 0
    ensures r == DecodeExactly(text, n)
  {
    var buffer := new byte[Base64.DecodeOutSize(|text|)];
    var count := Base64.DecodeInto(text, buffer);
    if count != n {
      return None;
    }
    r := Some(buffer[..count]);
  }
}
