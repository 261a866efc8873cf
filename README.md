# C-CLI-BMP-Editor core in Dafny

This project models the core of a small command-line BMP editor written in C:

- **The container code in `bmp.c`.** This covers:
  - the 4-byte row-stride rule (`get_padding`, `get_row_size`, `get_image_size`);
  - the Base64 codec it uses as a second transport (`base64_encode`, `base64_decode`, the standard alphabet and `=` padding of RFC 4648, sections 3.2 and 4);
  - the reading and writing of a 24-bit BMP over either transport (`read_bmp_header`, `read_data`, `read_bmp`, `write_bmp`).
- **The image transformations in `transformations.c`.** These are the horizontal and vertical flips, the right and left rotations, crop, scale (its guard and its identity branch) and extract (the channel mask).

## How the code is modelled

- **Bytes and integers.**
  - A `byte` is an integer in 0..255.
  - C's shifts and masks are written as `*`, `/` and `%`.
  - C's truncating `%` is written out (`Stride.CRem`). The `(LONG)` cast of `image_size` wraps to 32 bits (`Bytes.ToInt32`).
- **The header.** `struct bmp_header` is declared in `bmp.h`, which is not part of this model. It is a record of the fields the code reads or writes: `type` (`magic` here), `size`, `width`, `height` and `image_size`. The other bytes are kept opaque. `BmpHeader.Serialize` and `BmpHeader.Parse` map it to and from 54 little-endian bytes. The code reads `type`, `size`, `width`, `height` and `image_size` through the struct. Only bytes 0-1 (the magic) need their position for the transport sniffing. The offsets of the others follow the standard BITMAPFILEHEADER + BITMAPINFOHEADER layout.
- **Streams.** A `FILE*` is a byte sequence, a read position and whether the stream is seekable (`BmpIO.Stream`). `ftell` (`BmpIO.Tell`) is the position of a seekable stream and -1 on a pipe, such as the stdin that main.c reads. On a pipe read_data always takes the text branch, so a raw file piped in is refused (`BmpIO.PipedRawRefused`). A read is a function that returns its result, or `None` where the C code returns `NULL`, together with the advanced stream. `write_bmp` returns its verdict and the bytes it wrote.
- **Base64.** There are spec functions (`Base64.Encode`, `Base64.Decode`, `Base64.DecodedCount`) and two loop methods (`Base64.EncodeInto`, `Base64.DecodeInto`). The methods fill an output array the way the C state machines do, including the in-place OR of decoded bits into `out[j]`. base64_decode's `return 0` inside its loop becomes a flag that ends the loop. The methods are proved equal to the spec functions, and the round trip `Decode(Encode(x)) == Some(x)` is proved for every byte sequence.
- **Transformations.** They work on a `Pixels.Bitmap` (a header and a byte array). Each one allocates a fresh array and fills it in nested loops, with one `memcpy` per pixel or per row (`Pixels.CopyBytes`) or one store per byte.
  - Each loop method is proved against a description of its result that does not mention the loops: `Transformations.Moved`, `Transformations.Cropped`, `Transformations.ExtractedByte`.
  - Lemmas relate those descriptions: a mirror applied twice is the identity, a right turn undoes a left turn, and a crop of a crop is a crop.
  - Padding bytes of flips, rotations and crops are `malloc`ed and never written in C, so they are left unspecified.

## Model

| member | source | states |
|---|---|---|
| `Bytes.ToInt32` | bmp.c:200-203 | the `(LONG)` cast of an unsigned 32-bit value: the result is in the int32 range and congruent to the input modulo 2^32 |
| `Bytes.LE16` | bmp.c:67 | two little-endian bytes that read back (`U16`) as the value |
| `Bytes.LE32` | bmp.c:67 | four little-endian bytes that read back (`U32`) as the value |
| `Bytes.LE32Signed` | bmp.c:67 | four two's-complement bytes that read back (`I32`) as the signed value |
| `Bytes.BytesOfLE32` | bmp.c:67 | re-encoding a 32-bit field read from bytes gives the same four bytes |
| `BmpHeader.ValidMagic` | bmp.c:70 | the accepted `type` values, tested at bmp.c:70 and again at bmp.c:87: 0x4D42 ("BM") and 0x424D ("MB") |
| `BmpHeader.Serialize` | bmp.c:176 | the header written by `fwrite` is 54 bytes and starts with the magic, little-endian |
| `BmpHeader.Parse` | bmp.c:67 | any 54 bytes read by `fread` form a well-formed header with magic `b[0] + 256*b[1]`, and writing it back gives the same 54 bytes |
| `BmpHeader.ParseSerialize` | bmp.c:67 | reading back a written header gives the same header |
| `Stride.CRem` | bmp.c:215 | C's truncating remainder: in [0, b) for a >= 0, in (-b, 0] for a < 0, congruent to a |
| `Stride.Padding` | bmp.c:213-216 | for width >= 0 the padding is in 0..3 and makes `width*3 + padding` a multiple of 4 |
| `Stride.RowSize` | bmp.c:208-211 | for width >= 0 the row size is a multiple of 4, at least `width*3` and less than `width*3 + 4` |
| `Stride.ImageSize` | bmp.c:198-206 | a non-zero image_size below 2^31 is returned as is, one at or above 2^31 is returned as `image_size - 2^32` (negative), and 0 gives `get_row_size(width) * height` |
| `Stride.RowSizeMonotone` | bmp.c:208-211 | a wider image has rows at least as long |
| `Stride.BufferMonotone` | bmp.c:198-206 | a smaller window of a non-negative image needs no more pixel-row bytes than the image |
| `Base64.TableEntry` | bmp.c:289-337 | every entry of the decode table is 255 or a 6-bit value |
| `Base64.SymbolOf` | bmp.c:230-239 | base64en: the values 0-25, 26-51, 52-61, 62 and 63 are the symbols 'A'-'Z', 'a'-'z', '0'-'9', '+' and '/'; `SymbolOfValue` and `ValueOfSymbol` prove the decode table inverts it |
| `Base64.SymbolValue` | bmp.c:344-350 | a character the decoder accepts has a value below 64 |
| `Base64.SymbolOfValue` | bmp.c:230-239 | the encode table and the decode table are inverse: every symbol the encoder emits is accepted and decodes to its index |
| `Base64.ValueOfSymbol` | bmp.c:289-337 | every accepted character is the encode-table symbol of its decoded value |
| `Base64.Unpadded` | bmp.c:241-272 | the encoding before its `=` padding uses only the 64 table symbols |
| `Base64.Encode` | bmp.c:241-272 | the text base64_encode writes: each 3 bytes become the symbols of their four 6-bit fields, and a last 1 or 2 bytes become 2 or 3 symbols followed by `==` or `=`; `EncodeInto` writes exactly this, and `DecodeEncode` inverts it |
| `Base64.EncodedLength` | bmp.c:14 | BASE64_ENCODE_OUT_SIZE less the NUL: `((n+2)/3)*4` characters; `EncodeLength` proves `Encode` has this length |
| `Base64.EncodeOutSize` | bmp.c:14 | BASE64_ENCODE_OUT_SIZE: that length plus 1 for the NUL, the output size `EncodeInto` requires |
| `Base64.EncodeUnpadded` | bmp.c:262-272 | the encoding is the symbols followed by the padding: `==` for length 1 mod 3, `=` for 2 mod 3, none for 0 mod 3 |
| `Base64.UnpaddedLength` | bmp.c:241-272 | symbols plus padding have length `((n+2)/3)*4` |
| `Base64.EncodeShape` | bmp.c:262-272 | the encoded text is all symbols up to the padding, and the padding count is fixed by `n % 3` |
| `Base64.EncodeAppend` | bmp.c:241-260 | a prefix whose length is a multiple of 3 encodes independently of what follows |
| `Base64.EncodeLength` | bmp.c:14 | the encoded length is `((n+2)/3)*4`, a multiple of 4 |
| `Base64.GroupsLength` | bmp.c:14 | `EncodedLength(3q + r)` is `4q` plus 4 if there is a partial group |
| `Base64.EncodeDigits` | bmp.c:244-258 | the 4 symbols of every group are the table symbols of the group's 6-bit fields |
| `Base64.EncodeInto` | bmp.c:218-277 | the state machine returns `((inlen+2)/3)*4`, writes exactly `Encode(inp)` before it and a NUL at it, and leaves the rest of the buffer alone |
| `Base64.EncodeStep` | bmp.c:244-259 | one step of the encoder's switch on `s` keeps the output equal to the spec text up to the new cursor |
| `Base64.EncodeClose` | bmp.c:262-274 | the closing switch writes the last symbols, the padding and the NUL |
| `Base64.OneByteGroup` | bmp.c:262-267 | a single byte encodes as two symbols and `==` |
| `Base64.TwoByteGroup` | bmp.c:268-272 | two bytes encode as three symbols and `=` |
| `Base64.SymbolRun` | bmp.c:339-350 | the decoding loop runs over the longest prefix of table symbols and stops at the first `=` or rejected character |
| `Base64.DecodeSymbols` | bmp.c:352-367 | 4 symbols give 3 bytes, and a partial group of r symbols gives r-1 bytes |
| `Base64.Decode` | bmp.c:279-371 | a successful decode yields at most `(inlen/4)*3` bytes |
| `Base64.DecodeOutSize` | bmp.c:15 | BASE64_DECODE_OUT_SIZE: `(n/4)*3` bytes, the output size `DecodeInto` requires and a bound on what it writes |
| `Base64.DecodedCount` | bmp.c:279-371 | base64_decode's return value: the number of bytes of `Decode`, and 0 on an error |
| `Base64.DecodeFailsIff` | bmp.c:285-350 | decoding fails exactly when the length is not a multiple of 4 or a character before the first `=` is neither `=` nor a table symbol |
| `Base64.Touched` | bmp.c:352-367 | the bytes the decoder writes lie between the count it returns and `(inlen/4)*3` |
| `Base64.DecodeSymbolsAppend` | bmp.c:352-367 | decoding whole groups and then the rest is decoding the concatenation |
| `Base64.DecodeDigits` | bmp.c:352-367 | each decoded byte combines the 6-bit values of two neighbouring symbols as the switch on `i & 3` does |
| `Base64.DecodeInto` | bmp.c:279-371 | the decoder returns `DecodedCount(inp)`, on success writes exactly `Decode(inp)` before it, and writes nothing at or past `Touched(inp)`; when the symbols end inside a group it stores that group's partial bits at `Touched(inp) - 1` |
| `Base64.DecodeLoop` | bmp.c:339-368 | the loop stops at the end, at the first `=` or at the first rejected character, in the state `Progress` describes |
| `Base64.Progress` | bmp.c:339-368 | the loop state after i characters: the buffer holds the decoded bytes before the group's cursor and, inside a group, its partial bits at the cursor; nothing from there on has changed |
| `Base64.DecodeFinish` | bmp.c:340-350 | where the loop stopped decides the result: a rejected character means failure, the end or an `=` means the stored bytes are the decoded value; the bytes from `Touched` on are unchanged either way |
| `Base64.Classify` | bmp.c:343-350 | the range check and table lookup give 255 exactly for characters that are not symbols, and the symbol's value otherwise |
| `Base64.DecodeStep` | bmp.c:343-367 | one pass of the loop body for a symbol keeps `Progress`, moving on by one character |
| `Base64.DecodeGroupStep` | bmp.c:352-367 | the switch on `i & 3` keeps `Progress`: it adds the symbol's bits to the pending byte and, past its low bits, starts the next |
| `Base64.RunEndsAt` | bmp.c:339-350 | the run of symbols ends at the first position that is not a symbol |
| `Base64.GroupRoundTrip` | bmp.c:244-258 | a full encoded group decodes back to its 3 bytes |
| `Base64.TailRoundTrip` | bmp.c:262-272 | a 1- or 2-byte tail decodes back from its 2 or 3 symbols |
| `Base64.DecodeSymbolsOfEncode` | bmp.c:218-367 | decoding the symbols of an encoding gives back the input |
| `Base64.DecodeEncode` | bmp.c:218-371 | `base64_decode(base64_encode(x))` succeeds, returns `|x|` and yields `x`, for every length including 0, 1 and 2 |
| `Base64.TouchedByEncoding` | bmp.c:352-367 | on an encoding of n bytes the decoder writes n bytes, plus one pending byte when n is not a multiple of 3 |
| `Base64.PadEndsDecoding` | bmp.c:340-342 | a `=` stops decoding: whatever follows it is ignored |
| `Base64.EncodeThenDecode` | bmp.c:218-371 | running the two loops one after the other returns `|x|` and the bytes of `x` |
| `BmpIO.Read` | bmp.c:67 | `fread(buf, n, 1, stream)` succeeds iff n > 0 and n bytes remain; it then yields them and advances by n |
| `BmpIO.Tell` | bmp.c:114 | `ftell`: the read position of a seekable stream, and -1 on a pipe, which no `54 + imageSize` equals |
| `BmpIO.DecodeExactly` | bmp.c:80 | the decode succeeds iff the decoder returns exactly the wanted count, and yields the decoded bytes |
| `BmpIO.ReadHeader` | bmp.c:58-99 | succeeds directly iff the first 54 bytes carry magic 0x4D42 or 0x424D; otherwise only through the `'Q'` path, which `QuotedHeader` states in full; fails on a short read; any header returned is well-formed with a valid magic |
| `BmpIO.QuotedStart` | bmp.c:70-74 | bytes starting with `'Q'` carry no valid magic, read raw or parsed as a header |
| `BmpIO.QuotedHeader` | bmp.c:74-92 | at a `'Q'`, the header read succeeds iff 72 characters remain, they decode to exactly 54 bytes and those carry a valid magic; it then returns the header those bytes parse to and stops at 72 |
| `BmpIO.ReadDataText` | bmp.c:114-131 | the text branch reads the rest of `((n+2)/3)*4` characters and returns them decoded iff they decode to exactly n bytes |
| `BmpIO.ReadData` | bmp.c:101-144 | fails on a non-positive image size or a short read; returns the raw bytes when `ftell` after them reports `54 + imageSize`; otherwise decodes the Base64 text, and fails when it is shorter than `((n+2)/3)*4` characters |
| `BmpIO.ReadBmp` | bmp.c:32-56 | fails when the header fails or has width or height 0, or when the data read fails; succeeds exactly when the header has width and height above 0 and the data read succeeds, returning a valid header and exactly `get_image_size` data bytes |
| `BmpIO.FileBytes` | bmp.c:176-177 | the raw file has `54 + get_image_size` bytes: the serialized header followed by the first `get_image_size` data bytes |
| `BmpIO.TextBytes` | bmp.c:155-160 | the bytes written to stdout are the Base64 encoding of the file bytes |
| `BmpIO.WriteBmp` | bmp.c:146-179 | raw output is the header and then the data, and succeeds iff the data is non-empty; stdout output is the Base64 of the file bytes, and always succeeds |
| `BmpIO.StagingBuffer` | bmp.c:157 | the buffer write_bmp allocates for the stdout text holds `header->size` bytes |
| `BmpIO.StagedBytes` | bmp.c:158-159 | write_bmp copies 54 header bytes and `get_image_size` data bytes into it |
| `BmpIO.StagingOverrun` | bmp.c:155-159 | an image whose `size` is below 54 + imageSize, so that the stdout path copies more bytes than its buffer holds, is read back from the raw file that holds it |
| `BmpIO.StagingOverrunExample` | bmp.c:155-159 | a 1 x 1 image whose header says size 54 is read from its 58-byte file and stages 58 bytes in a 54-byte buffer |
| `BmpIO.ShortImageSizeReads` | bmp.c:32-56 | `read_bmp` takes image_size from the file without checking it against the rows: a 2 x 2 image whose image_size is 4 is read with 4 data bytes, though its padded rows take 16 |
| `BmpIO.NegativeWidthReads` | bmp.c:32-56 | `read_bmp` refuses only a width or height of 0: a BM header with width -1, height 5 and image_size 12 is read back from its raw file |
| `BmpIO.RawRoundTrip` | bmp.c:32-179 | reading back a raw written image from a seekable stream gives the same header and data |
| `BmpIO.RawReadWrite` | bmp.c:32-179 | an image read raw from a seekable stream and written back to a file gives exactly the bytes that were read |
| `BmpIO.PipedRawRefused` | bmp.c:112-120 | a raw file read from a pipe goes down the text branch and is refused, its data being shorter than that text |
| `BmpIO.TextHeaderReads` | bmp.c:74-92 | text starting with `'Q'` whose first 72 characters decode to a header is read as that header, leaving the stream at 72 |
| `BmpIO.TextDataReads` | bmp.c:114-131 | after a text header, from a file or a pipe, the `ftell` test selects the text branch and the data decodes to the written bytes |
| `BmpIO.TextOfFile` | bmp.c:155-160 | the text of an image with magic "BM" starts with `'Q'` and splits into the 72-character header text and the data text |
| `BmpIO.TextRoundTrip` | bmp.c:74-131 | for magic "BM", reading back the stdout text, from a file or a pipe, recovers the same header and data |
| `BmpIO.TextOfSwapped` | bmp.c:70-74 | the text of a file starting with 0x4D starts with `'T'` and is not read back |
| `BmpIO.SwappedMagicText` | bmp.c:70-74 | an image with magic 0x424D written to stdout cannot be read back |
| `BmpIO.DataBufferOverrun` | bmp.c:110-120 | for a pixel buffer of n bytes with n not a multiple of 3, decoding its text returns n and reaches n + 1 bytes; `DecodeInto` proves the store at index n |
| `BmpIO.OverrunExample` | bmp.c:110-120 | a 1 x 1 image has 4 data bytes, their text is "AAAAAA==", and decoding it writes 5 bytes |
| `BmpIO.DecodeText` | bmp.c:116-120 | decoding into a buffer of `(len/4)*3` bytes returns exactly what the text branch should: `DecodeExactly(text, n)` |
| `Pixels.Offset` | transformations.c:37-38 | the first byte of pixel (i, j): `get_row_size(width) * i + j * 3`, the address every transformation computes |
| `Pixels.Copyable` | transformations.c:179-185 | what a `memcpy` of `get_image_size` bytes needs: a well-formed header and a buffer that holds those bytes |
| `Pixels.Sound` | transformations.c:17-31 | what the transformations rely on: non-negative dimensions, pixel rows that fit `get_image_size` bytes without overflowing a LONG, and a buffer of that many bytes |
| `Pixels.OffsetWithin` | transformations.c:37-38 | every pixel of a W x H image lies inside its `get_row_size(W) * H` bytes |
| `Pixels.OffsetsBefore` | transformations.c:33-40 | pixels are stored in row-major order: every earlier pixel ends before this one starts |
| `Pixels.RowWithin` | transformations.c:62-66 | the `3 * width` pixel bytes of every row lie inside the buffer |
| `Pixels.CopyBytes` | transformations.c:37-38 | `memcpy` between distinct buffers: the n bytes are copied and every other byte is unchanged |
| `Transformations.SourceOffset` | transformations.c:33-128 | the source pixel of output pixel (i, j), as the code evidently intends it: (i, width-1-j) for flip_horizontally, (height-1-i, j) for flip_vertically, (j, width-1-i) for rotate_right and (height-1-j, i) for rotate_left, each one pixel or one row before the code as written |
| `Transformations.Moved` | transformations.c:33-128 | the moved image: every output pixel holds the three bytes of its `SourceOffset` source pixel; the loop methods establish it, and `MirrorTwice` and `TurnBack` relate it for pairs of moves |
| `Transformations.SourceWithin` | transformations.c:90-97 | every source pixel a flip or rotation reads lies inside the source buffer |
| `Transformations.MirrorTwice` | transformations.c:33-40 | flipping twice (horizontally, or vertically) gives back every pixel |
| `Transformations.TurnBack` | transformations.c:90-128 | rotating right then left, or left then right, gives back every pixel |
| `Transformations.TurnFour` | transformations.c:77-128 | four right turns give back every pixel |
| `Transformations.MovePixels` | transformations.c:33-40 | the per-pixel loops copy each output pixel from its mirrored or turned source pixel |
| `Transformations.MoveRow` | transformations.c:35-39 | the inner loop copies every pixel of output row i from its source pixel and keeps the rows before it |
| `Transformations.MovePixel` | transformations.c:35-39 | one pass of the inner loop copies pixel (i, j) from its source pixel and keeps the pixels copied before it |
| `Transformations.FlipHorizontally` | transformations.c:17-44 | no image gives no image; otherwise the header is unchanged, the buffer holds `get_image_size` bytes and each row's pixels are mirrored |
| `Transformations.MirrorRowsCopy` | transformations.c:62-66 | the row loop copies the `3 * width` pixel bytes of row `height-1-i` into row i |
| `Transformations.MirrorRow` | transformations.c:62-66 | one pass of the row loop copies row `height-1-i` into row i and keeps the rows before it |
| `Transformations.FlipVertically` | transformations.c:46-69 | no image gives no image; otherwise the header is unchanged, the buffer holds `get_image_size` bytes and the rows are in reverse order |
| `Transformations.Turned` | transformations.c:80-86 | the rotated header swaps width and height and keeps every other field, `size` and `image_size` included |
| `Transformations.RotateRight` | transformations.c:71-100 | no image gives no image; otherwise the header is turned and output pixel (i, j) is source pixel (j, width-1-i) |
| `Transformations.RotateLeft` | transformations.c:102-131 | no image gives no image; otherwise the header is turned and output pixel (i, j) is source pixel (height-1-j, i) |
| `Transformations.TurnedSizeFits` | transformations.c:88 | when image_size is 0, the rotated buffer is sized by the rotated dimensions |
| `Transformations.CropFits` | transformations.c:140-144 | crop's guard, passed iff `x + w` and `y + h` are below width and height read as unsigned 32-bit values (a negative LONG counts as 2^32 plus it), `h >= 1` and `w >= 1`; x and y are unsigned, so never negative |
| `Transformations.CroppedHeader` | transformations.c:150-154 | the crop's header: width w, height h, `image_size = get_row_size(w) * h` and `size = 54 + image_size`, every other field copied |
| `Transformations.CropReadable` | transformations.c:153-161 | what crop's copies need: every window row, `3 * w` bytes from `(y + i) * get_row_size(width) + 3x`, lies in the buffer, and `get_row_size(w) * h` fits a LONG |
| `Transformations.Cropped` | transformations.c:158-162 | output pixel (i, j) holds the three bytes of source pixel (y + i, x + j) |
| `Transformations.CropRejectsEdge` | transformations.c:140-144 | a window reaching the last column or row, and so the whole image, is refused |
| `Transformations.CroppedHeaderSize` | transformations.c:150-156 | a crop whose rows fit a LONG gets a well-formed header with `get_image_size = get_row_size(w) * h > 0` |
| `Transformations.CroppedSize` | transformations.c:150-158 | the crop header is well-formed, with `image_size = get_row_size(w) * h`, a positive int32 |
| `Transformations.SoundCropReadable` | transformations.c:140-161 | on an image with non-negative dimensions and a large enough buffer, every window the guard passes can be read |
| `Transformations.NegativeWidthCrop` | transformations.c:140-161 | width -1 and height 5: the unsigned guard passes crop(0, 0, 1, 1), `get_row_size(-1)` is 0, and the one window row lies in a 12-byte buffer |
| `Transformations.CropTwice` | transformations.c:160-162 | a crop of a crop is the crop at the summed corner |
| `Transformations.CopyWindow` | transformations.c:160-162 | row i of the output holds the w pixels of source row `y+i` starting at column x |
| `Transformations.CopyWindowRow` | transformations.c:158-162 | one pass of the row loop copies window row i and keeps the rows before it |
| `Transformations.Crop` | transformations.c:133-166 | fails iff there is no image or `CropFits` fails; otherwise sets the new header (w, h, image_size, `size = 54 + image_size`) and copies the window, on any image whose window rows lie in its buffer, negative dimensions included |
| `Transformations.Scale` | transformations.c:168-185 | fails iff there is no image or the factor is <= 0; factor 1 gives the same header and a byte-exact copy of `get_image_size` bytes |
| `Transformations.Copy` | transformations.c:179-185 | the copy has the same header and exactly the first `get_image_size` bytes of the buffer |
| `Transformations.ValidColors` | transformations.c:224-248 | the colour strings extract accepts: every character is 'b', 'g' or 'r' |
| `Transformations.Kept` | transformations.c:227-239 | `saveColor`: channel 0, 1 or 2 is kept iff 'b', 'g' or 'r' occurs in the string |
| `Transformations.ParseColors` | transformations.c:223-249 | the colour string is accepted iff every character is b, g or r; the flags say which letters appeared, and keepAll holds iff the string is empty |
| `Transformations.ExtractedByte` | transformations.c:267-283 | byte p of the extracted image: a pixel byte of a kept channel is the source byte, every other byte, padding included, is 0 |
| `Transformations.ExtractedPixel` | transformations.c:269-285 | byte k of every pixel of the extracted image is the source byte if channel k is kept, else 0 |
| `Transformations.ExtractedPadding` | transformations.c:266-267 | the padding bytes of every row of the extracted image are 0 |
| `Transformations.ExtractAllChannels` | transformations.c:269-285 | "bgr" keeps every pixel byte and still zeroes the padding |
| `Transformations.KeepChannels` | transformations.c:266-285 | the zero-filled buffer ends up byte for byte equal to the channel mask of the source |
| `Transformations.KeepPixel` | transformations.c:273-283 | the innermost loop stores the three bytes of one pixel, each the source byte if its channel is kept and 0 otherwise |
| `Transformations.Extract` | transformations.c:211-288 | fails iff there is no image or a character other than b, g and r; the header is unchanged; an empty string copies the buffer, otherwise every byte is the channel mask |
| `Transformations.SourceOffsetAsWritten` | transformations.c:33-128 | the source offsets as the code computes them: columns `width - j` (line 38) and `height - i` (line 95), rows `height - i` (line 65) and `width - j` (line 126) |
| `Transformations.AsWrittenOneTooFar` | transformations.c:38 | each source offset as written is one pixel too far (mirrored columns, right turn) or one row too far (mirrored rows, left turn) |
| `Transformations.AsWrittenFirstRead` | transformations.c:95 | as written, the first pixel copied lies past the last pixel of row 0, or at the end of the pixel rows |
| `Transformations.MirrorOverrun` | transformations.c:38 | on a 4 x 1 image the first pixel `flip_horizontally` reads starts at byte 12, the end of the 12-byte buffer |
| `Transformations.StaleTurnedSize` | transformations.c:80-88 | a consistent 5 x 1 header with image_size 16 keeps 16 after rotation, but the rotated rows need 20 bytes |
| `Transformations.ExtractOffsetAsWritten` | transformations.c:277-281 | the byte extract stores for loop indices (i, j, k): `i * get_row_size(width) + j * 3 + k` with width and height exchanged |
| `Transformations.ExtractAsWrittenSquare` | transformations.c:263-264 | swapping width and height in extract changes nothing on a square image |
| `Transformations.ExtractAsWrittenOverrun` | transformations.c:263-285 | on a 5 x 2 image, extract as written writes byte 37 of a 32-byte pixel area |
| `Transformations.ExtractAsWrittenSkips` | transformations.c:269-285 | on a 5 x 2 image, extract as written never writes byte 0 of pixel (0, 2) |

## Left out

- main.c (option parsing, help text, `fopen`/`fclose`, the stdin poll, chaining of transformations) is command-line glue and I/O; it is not part of this model.
- `free_bmp_image`, `malloc`/`free` and their failure, and the `printf` error messages are resource handling and output, not modelled.
- The general `scale` path (a factor above 0 other than 1) rounds floats and is not modelled.
- Null `header` or `data` pointers inside a non-null image are not modelled: a header is a value and a buffer is a non-null array, so only a missing image (`null`) is.
- `Transformations.Scale`: requires the factor to be <= 0 or exactly 1, because only the guard and the identity branch are modelled.
- `Transformations.FlipHorizontally`, `FlipVertically`, `RotateRight`, `RotateLeft`: require `Pixels.Sound` of any non-null image. So does `Extract` when the colour string is valid and non-empty. `Pixels.Sound` means:
  - width and height are non-negative;
  - the pixel rows fit in `get_image_size` bytes without overflowing a LONG;
  - the buffer holds that many bytes.
  The C loops address every pixel row, so on other images they read or write out of bounds. `read_bmp` accepts some of those images (`ShortImageSizeReads`).
- `Transformations.Scale`, `Extract`: their copying branches (factor 1, empty colour string) require only `Pixels.Copyable`, since the single `memcpy` touches `get_image_size` bytes and no pixel rows. The rejection paths require nothing.
- `Transformations.RotateRight`: requires `get_image_size` of the rotated header to cover the rotated rows. The rotation keeps a non-zero image_size that can be too small; `StaleTurnedSize` shows this for a 5 x 1 image. `TurnedSizeFits` shows that an image_size of 0 always meets the requirement.
- `Transformations.RotateLeft`: has the same requirement as `RotateRight`, for the same reason.
- `Transformations.Crop`: requires x, y, h and w below 2^32, and `x + w` and `y + h` to stay below 2^32. The unsigned wrap-around of the guard is not modelled.
- `Transformations.Crop`: when the guard passes, requires `CropReadable`: every window row lies in the buffer and `get_row_size(w) * h` fits a LONG. Otherwise C reads out of bounds or overflows a LONG. The row offsets `(i + (int)y) * get_row_size(width)` and `x * 3` are taken as unbounded integers: the 32-bit wrap of `(int)y` for y at or above 2^31 and of `x * 3` is not modelled. `SoundCropReadable` shows that images with non-negative dimensions always meet it.
- `Transformations.Extract`: requires the colour string to contain no NUL, since it is the content of a C string; a null colour string is not modelled.
- Padding bytes of flipped, rotated and cropped images are uninitialised in C and left unspecified by `Moved` and `Cropped`.
- `BmpIO.ReadHeader`: a short read of the 18 further Base64 characters fails. The C code ignores that `fread` and decodes the buffer's uninitialised bytes.
- `BmpIO.ReadData`: a short read of the remaining Base64 characters fails. The C code decodes uninitialised memory there. Images whose `get_image_size` is 0 or negative fail, where C would pass such a size to `malloc` and `fread`.
- `BmpIO.WriteBmp`: on stdout it encodes the 54 + `get_image_size` bytes of the file, not `header->size` bytes. For a larger `size` the C code also encodes bytes of its buffer it never wrote. For a smaller one it overruns that buffer, a case listed under Findings.
- `BmpIO.WriteBmp`: writes to the stream always succeed, except writes of zero bytes, which `fwrite` reports as failure.
- `Stride.ImageSize`: the product `get_row_size(width) * height` is not wrapped to 32 bits; the transformations require it to stay below 2^31.

## Findings

| source | as written | input that shows it | evidently intended | confidence | as-written member | corrected member |
|---|---|---|---|---|---|---|
| bmp.c:110-120 | `read_data` decodes the Base64 text into `data`, which holds only imageSize bytes. On the text of imageSize bytes, the decoder writes imageSize + 1 bytes when imageSize is not a multiple of 3: the last group's pending partial byte. On a text that then fails to decode it can write imageSize + 2 | a 1 x 1 image (4 data bytes) sent as text "AAAAAA==": the decoder writes 5 bytes | decode into a buffer of `(len/4)*3` bytes and keep the first imageSize | not executed | `BmpIO.DataBufferOverrun` | `BmpIO.DecodeText` |
| bmp.c:155-159 | `write_bmp` to stdout allocates `header->size` bytes and copies the 54 header bytes and imageSize data bytes into them; `size` comes from the file and is never checked | a 1 x 1 image whose header says size 54 reads back from its 58-byte file, and writing it to stdout copies 58 bytes into 54 | stage and encode the 54 + imageSize bytes of the file | not executed | `BmpIO.StagingOverrun` | `BmpIO.WriteBmp` |
| transformations.c:38 | `flip_horizontally` reads column `width - j`, which for j = 0 is past the row's last pixel | a 4 x 1 image: the first read starts at byte 12 of a 12-byte buffer | column `width - 1 - j` | not executed | `Transformations.MirrorOverrun` | `Transformations.FlipHorizontally` |
| transformations.c:65 | `flip_vertically` reads row `height - i`, which for i = 0 starts at the end of the pixel rows | any image with width and height above 0: the first `memcpy` copies `3 * width` bytes from the end of the buffer | row `height - 1 - i` | not executed | `Transformations.AsWrittenFirstRead` | `Transformations.FlipVertically` |
| transformations.c:95 | `rotate_right` reads column `height - i` of the source (its old width), one pixel too far | any image with width and height above 0: output pixel (0, 0) is read from column `width` of row 0 | column `width - 1 - i` | not executed | `Transformations.AsWrittenOneTooFar` | `Transformations.RotateRight` |
| transformations.c:126 | `rotate_left` reads source row `width - j` (its old height), one row too far | any image with width and height above 0: output pixel (0, 0) is read from the end of the pixel rows | row `height - 1 - j` | not executed | `Transformations.AsWrittenFirstRead` | `Transformations.RotateLeft` |
| transformations.c:263-264 | `extract` swaps width and height, so on a non-square image it addresses the wrong bytes | a 5 x 2 image: byte 37 of the 32-byte pixel area is written, and byte 0 of pixel (0, 2) is never written | loop over the image's own width and height | not executed | `Transformations.ExtractAsWrittenOverrun` | `Transformations.Extract` |
