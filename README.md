# ktxjuggle's KTX 1.1 codec, in Dafny

ktxjuggle converts KTX 1.1 texture files to JSON and back. This project
models its binary side. That covers three parts.

- The byte stream helpers of `ktxjuggle/binary.py`: the `Reader` and `Writer`
  classes and the percent escaping of bytes for JSON text.
- `Ktx.fromBinary`, which reads a KTX file into the sixteen fields of a `Ktx` object.
- `Ktx.toBinary`, which writes those fields back, and `Ktx.validate`, which logs
  what is wrong with a texture.

The modules are:

- `Base`: bytes, 32-bit words, Python's exceptions as values, and `Result`.
- `Binary`: the `Reader` class (a byte sequence, a position and an endianness)
  and the `Writer` class (the bytes written so far and an endianness). Their
  methods are proved against the pure step functions `BytesAt`, `Uint32At`,
  `AlignAt` and `Transfer`. 32-bit words are written out as four bytes in
  either order.
- `Percent`: `pctEncode` and `pctDecode` as loop methods, proved equal to the
  specification functions `Encoding` and `Decoding`.
- `KtxLayout`: the file layout. The `Texture` value holds the header fields,
  the key/value metadata and the mipmap levels. `Parse` says what `fromBinary`
  reads from a byte string. `Encode` says what `toBinary` writes. Log messages
  are `Diagnostic` values. The round trip from a record is proved here:
  what `toBinary` writes, `fromBinary` reads back.
- `KtxRewrite`: the round trip from a stream. A file that `fromBinary` reads
  without a warning, and whose padding bytes are zero, is written back by
  `toBinary` as the same bytes.
- `KtxCheck`: `Check`, the specification of `validate`. For every message,
  a lemma says exactly when it is logged.
- `KtxFile`: the `Ktx` class with its sixteen fields. `FromBinary` reads
  through a `Reader`; `ToBinary` and `Validate` act on the fields. Each is
  proved against `Parse`, `Encode` and `Check`.

Logging is modelled as a returned sequence of `Diagnostic` values in the order
the source logs them. A raised exception is a `Failure` carrying the Python
exception class, and it keeps the messages logged before it.

## Model

| member | source | states |
|---|---|---|
| Binary.Reader.constructor | ktxjuggle/binary.py:6-8 | a new reader is at the start of the stream and little-endian |
| Binary.Reader.Read | ktxjuggle/binary.py:24 | `stream.read(n)` returns the next `n` bytes, or all that remain when fewer do, and moves the position past them |
| Binary.Reader.HasMore | ktxjuggle/binary.py:10-15 | `bool(reader)` is true exactly when a byte remains, and the position is left where it was |
| Binary.Reader.ReadWords | ktxjuggle/binary.py:18-22 | the big-endian branch reads `min(size, remaining)` bytes; when all `size` are there, it returns them with every `wordSize` chunk reversed (`SwapWords`), the last partial chunk included |
| Binary.Reader.Bytes | ktxjuggle/binary.py:17-28 | `BytesAt` gives the result: success exactly when `size` bytes remain, with the bytes (word-swapped for big-endian multi-byte words); otherwise EOFError with the position at the end of the stream |
| Binary.BytesAt | ktxjuggle/binary.py:17-28 | succeeds exactly when `pos + size` is at most the length of `data`, then advances by exactly `size` and returns `size` bytes; otherwise fails with EOFError |
| Binary.Reader.Uint32 | ktxjuggle/binary.py:30-31 | returns the 4-byte word at the position in the reader's byte order (`Uint32At`), or EOFError |
| Binary.Uint32At | ktxjuggle/binary.py:30-31 | succeeds exactly when four bytes remain, and then advances by four; otherwise fails with EOFError |
| Binary.Reader.Align | ktxjuggle/binary.py:33-35 | skips the padding up to the next multiple of `n` (`AlignAt`), or fails with EOFError at the end of the stream |
| Binary.AlignAt | ktxjuggle/binary.py:33-35 | succeeds exactly when the padding fits in the data, and then lands on a multiple of `n` inside the data |
| Binary.PaddingAligns | ktxjuggle/binary.py:34 | the padding `(n - pos % n) % n` is below `n` and brings `pos` to a multiple of `n` |
| Binary.PaddingLeast | ktxjuggle/binary.py:34 | no smaller count of bytes reaches a multiple of `n`: the padding is the least one |
| Binary.Writer.constructor | ktxjuggle/binary.py:40-42 | a new writer has written nothing and is little-endian |
| Binary.Writer.Bytes | ktxjuggle/binary.py:44-49 | appends `Transfer(b)` to the output: `b` itself, or `b` with each `wordSize` chunk reversed for big-endian multi-byte words |
| Binary.TransferTwice | ktxjuggle/binary.py:44-49 | transferring twice gives the bytes back, so the word swap of the writer undoes the reader's |
| Binary.Writer.Uint32 | ktxjuggle/binary.py:51-52 | appends the four bytes of `i` in the writer's byte order |
| Binary.FromToBytes | ktxjuggle/binary.py:30-31 | `int.from_bytes` of `i.to_bytes(4)` in the same byte order is `i` |
| Binary.ToFromBytes | ktxjuggle/binary.py:51-52 | `to_bytes(4)` of `from_bytes` of four bytes is those four bytes |
| Binary.Writer.Align | ktxjuggle/binary.py:54-56 | appends the least count of zero bytes that brings the output length to a multiple of `n` |
| Binary.BytesAtAsWritten | ktxjuggle/binary.py:17-28 | the read as written: the big-endian branch with `wordSize > 1` always raises TypeError |
| Binary.SwappedReadAsWritten | ktxjuggle/binary.py:18-22 | for a big-endian read of multi-byte words that fits in the data, the code as written raises TypeError where the intended read returns the word-swapped bytes |
| Binary.WriteAsWritten | ktxjuggle/binary.py:44-49 | the write as written: the big-endian branch raises TypeError for any non-empty `b` with `wordSize > 1` |
| Binary.SwappedWriteAsWritten | ktxjuggle/binary.py:45-47 | for a non-empty big-endian write of multi-byte words, the code as written raises TypeError where the intended write reverses each word, which undoes itself |
| Percent.PctEncode | ktxjuggle/binary.py:59-66 | the loop builds `Encoding(binary)`: each byte as itself when allowed and a printable literal, otherwise `%XX` |
| Percent.EncodingLength | ktxjuggle/binary.py:59-66 | each byte takes one to three characters, exactly three when no literal is allowed |
| Percent.EncodingIsPlainText | ktxjuggle/binary.py:62 | the encoding is printable ASCII without `"` or `\` |
| Percent.PctDecode | ktxjuggle/binary.py:69-81 | the loop computes `Decoding(s)`: `%` plus up to two characters parsed as `int(t, 16)`, a printable character as its code, anything else a ValueError |
| Percent.EscapeWhitespace | ktxjuggle/binary.py:73-75 | `int(t, 16)` skips a space around an escape's digits (`% 5` is the byte 5) but not the separators U+001C to U+001F, which make the escape a ValueError |
| Percent.DecodeEscape | ktxjuggle/binary.py:73-75 | an escape `%XX` decodes to its byte, and decoding goes on after it |
| Percent.DecodeEncode | ktxjuggle/binary.py:59-81 | `pctDecode(pctEncode(b, p)) == b` for all bytes `b` and both settings of `p` |
| Percent.DecodeLiterals | ktxjuggle/binary.py:76-80 | a string without `%` decodes exactly when all of it is printable ASCII, and then to its character codes |
| KtxLayout.LevelCount | ktxjuggle/ktx.py:80-82 | `fromBinary` reads one level when `numberOfMipmapLevels` is 0 or the format is paletted (`isOESCPT`), and otherwise `numberOfMipmapLevels` levels |
| KtxLayout.ImagesPerLevel | ktxjuggle/ktx.py:87 | six images per level exactly for a non-array cubemap (`isNonArrayCubemap`), otherwise one |
| KtxLayout.SplitEntry | ktxjuggle/ktx.py:70-72 | splitting at the first NUL gives a NUL-free key, and key, NUL and value put back together give the record |
| KtxLayout.RecordAt | ktxjuggle/ktx.py:67-69 | a record read inside the metadata block (length, bytes, padding) ends inside the block, after its bytes |
| KtxLayout.ParseMetadataSound | ktxjuggle/ktx.py:65-77 | every parsed key is free of NUL, and the metadata loop logs only missing-NUL and overrun warnings |
| KtxLayout.OverrunLogged | ktxjuggle/ktx.py:65-77 | the overrun warning is logged exactly when the metadata loop stops before the end of the block, and it stops there only at a record whose length word or bytes overrun the block |
| KtxLayout.ReadImages | ktxjuggle/ktx.py:87-89 | reading a level's images either fails with EOFError or yields exactly `count` images and stays inside the stream |
| KtxLayout.ReadImagesSized | ktxjuggle/ktx.py:87-89 | each image read has exactly `imageSize` bytes |
| KtxLayout.ParseLevels | ktxjuggle/ktx.py:83-93 | at most `levelCount` levels are read; the log is empty or the one truncation warning that ends the loop, and that warning is logged exactly when fewer than `levelCount` levels were read |
| KtxLayout.ParseLevelsShaped | ktxjuggle/ktx.py:83-90 | every level read holds exactly the number of faces asked for, each of `imageSize` bytes |
| KtxLayout.ParseOutcome | ktxjuggle/ktx.py:36-97 | reading fails exactly when the 64-byte header or the metadata block is cut short, and then with EOFError; whatever is read is well shaped; the truncation warning is in the log exactly when fewer than `levelCount` levels were read |
| KtxLayout.ParseEncodedHeader | ktxjuggle/ktx.py:40-58 | the header `toBinary` writes reads back as the same fields in the same byte order |
| KtxLayout.ParseEncodedMetadata | ktxjuggle/ktx.py:59-78 | the metadata `toBinary` writes reads back as the same entries with nothing logged |
| KtxLayout.ParseEncodedLevels | ktxjuggle/ktx.py:79-94 | the levels `toBinary` writes read back as the same levels with nothing logged |
| KtxLayout.RoundTrip | ktxjuggle/ktx.py:36-166 | `fromBinary(toBinary(t, endian))` reads back `t` for every well-formed `t` in both byte orders, logging only the big-endian conversion note |
| KtxLayout.ByteExactRoundTrip | ktxjuggle/ktx.py:36-166 | a corollary of `RoundTrip`: a stream `toBinary` wrote for a well-formed record, read and written back in the byte order it was read in, is the same bytes |
| KtxRewrite.WordBytesOfWords | ktxjuggle/ktx.py:47-58 | header words read from the stream and written back in the same byte order are the bytes they were read from |
| KtxRewrite.HeaderBytesOfStream | ktxjuggle/ktx.py:40-58 | the 64-byte header written back from the fields read is the header read, the big-endian marker included |
| KtxRewrite.EncodeParsedMetadata | ktxjuggle/ktx.py:65-77 | a key/value block read without a warning and with zero padding is what the metadata loop of `toBinary` (ktx.py:156-160) writes for the entries read |
| KtxRewrite.EncodeReadImages | ktxjuggle/ktx.py:87-89 | the images of a level, read with zero padding, are what `toBinary` (ktx.py:164-166) writes for them |
| KtxRewrite.EncodeParsedLevels | ktxjuggle/ktx.py:83-93 | levels read without a warning and with zero padding are all `levelCount` levels, and `toBinary` (ktx.py:162-166) writes them back as the bytes they were read from |
| KtxRewrite.ParseThenEncode | ktxjuggle/ktx.py:36-166 | a stream that `fromBinary` reads with no warning other than the big-endian note, and whose padding is zero, yields a well-formed record, and `toBinary` in the byte order read writes it back as the same bytes |
| KtxCheck.AsciiIsUtf8 | ktxjuggle/ktx.py:265 | `key.decode()` succeeds on ASCII keys |
| KtxCheck.ContinuationFirstIsNotUtf8 | ktxjuggle/ktx.py:265 | `key.decode()` fails on a key that starts with a continuation byte |
| KtxCheck.CheckResult | ktxjuggle/ktx.py:255-266 | `validate` raises UnicodeDecodeError exactly when some reserved-prefix key other than `KTXorientation` is not UTF-8, and otherwise returns normally |
| KtxCheck.CheckHeaderNote | ktxjuggle/ktx.py:230-253 | the header warnings in the whole log are those of the header checks, whatever the later loops do |
| KtxCheck.CheckHeader | ktxjuggle/ktx.py:230-253 | each header warning is logged exactly when its condition holds |
| KtxCheck.NoFailureBetweenAll | ktxjuggle/ktx.py:255-266 | the metadata loop gets past entries `i` to `j` exactly when every one of their keys decodes |
| KtxCheck.CheckEntry | ktxjuggle/ktx.py:255-266 | each metadata note for entry `e` is logged exactly when entry `e` breaks its rule and no earlier entry raised |
| KtxCheck.EmptyKeyLogged | ktxjuggle/ktx.py:257-258 | the empty-key note for entry `e` is logged exactly when its key is empty and the loop reaches it |
| KtxCheck.EmptyValueLogged | ktxjuggle/ktx.py:259-260 | the empty-value note for entry `e` is logged exactly when its value is empty and the loop reaches it |
| KtxCheck.DuplicateKeyLogged | ktxjuggle/ktx.py:261-262 | the duplicate-key note for entry `e` is logged exactly when an earlier entry has the same key and the loop reaches it |
| KtxCheck.UnknownReservedKeyLogged | ktxjuggle/ktx.py:263-265 | the reserved-key note for entry `e` is logged exactly when its key starts with `KTX` or `ktx`, is not `KTXorientation`, is valid UTF-8, and the loop reaches it |
| KtxCheck.CheckLevel | ktxjuggle/ktx.py:268-279 | each level note is logged exactly when its level breaks the rule, measured against the previous level's size, and the metadata loop did not raise |
| KtxCheck.FaceCountMismatchLogged | ktxjuggle/ktx.py:270-271 | the face-count warning for level `l` is logged exactly when its image count differs from `numberOfFaces` |
| KtxCheck.ImageSizeIncreaseLogged | ktxjuggle/ktx.py:268-273 | the order warning for level `l` is logged exactly when its `imageSize` exceeds the previous level's; the first level is compared with 0xFFFFFFFF and never logs it |
| KtxCheck.ImageSizeMismatchLogged | ktxjuggle/ktx.py:274-276 | the size warning for image `f` of level `l` is logged exactly when its length differs from `imageSize` |
| KtxCheck.NotTypeSizeMultipleLogged | ktxjuggle/ktx.py:277-278 | the type-size warning for image `f` of level `l` is logged exactly when `glTypeSize` is not 0 and does not divide its length |
| KtxFile.Ktx.constructor | ktxjuggle/ktx.py:17-33 | a new object has every field unset, here empty or zero |
| KtxFile.Ktx.ValidateMetadata | ktxjuggle/ktx.py:255-266 | the metadata loop, with its set of keys seen so far, logs and raises as `MetadataNotes` says |
| KtxFile.Ktx.ValidateImages | ktxjuggle/ktx.py:274-278 | the image loop of one level logs as `ImageNotes` says |
| KtxFile.Ktx.ValidateLevels | ktxjuggle/ktx.py:268-279 | the level loop, with `prevImageSize` starting at 0xFFFFFFFF, logs as `LevelNotes` says |
| KtxFile.Ktx.Validate | ktxjuggle/ktx.py:225-279 | `validate` on the object's fields gives exactly `Check` of its value: the same log and the same outcome |
| KtxFile.Ktx.WriteHeader | ktxjuggle/ktx.py:141-154 | writes the identifier and the thirteen header words in the writer's byte order |
| KtxFile.Ktx.WriteMetadata | ktxjuggle/ktx.py:156-160 | appends each entry as its length, key, NUL, value and padding to four bytes |
| KtxFile.Ktx.WriteLevels | ktxjuggle/ktx.py:162-166 | appends each level as its `imageSize`, then each image written in `glTypeSize` words and padded |
| KtxFile.Ktx.ToBinary | ktxjuggle/ktx.py:137-166 | the bytes written are `Encode` of the object's value, which `RoundTrip` reads back |
| KtxFile.Ktx.ReadHeaderWords | ktxjuggle/ktx.py:47-58 | the twelve header words after the marker, read in the stream's byte order, or EOFError when the header is cut short |
| KtxFile.Ktx.ReadHeader | ktxjuggle/ktx.py:40-58 | reads identifier and marker, switches to big-endian with a note exactly when the marker is 0x01020304, and then reads the header fields or fails with EOFError |
| KtxFile.Ktx.ReadMetadata | ktxjuggle/ktx.py:59-78 | fails with EOFError when the block overruns the stream; otherwise consumes exactly the block and parses it as `ParseMetadata` says |
| KtxFile.Ktx.ReadLevelImages | ktxjuggle/ktx.py:87-89 | reads a level's images with alignment, as `ReadImages` says |
| KtxFile.Ktx.ReadLevels | ktxjuggle/ktx.py:79-93 | reads the levels, stopping with one warning at the first truncation, as `ParseLevels` says |
| KtxFile.Ktx.FromRecord | ktxjuggle/ktx.py:37-90 | the object's fields hold the record read |
| KtxFile.Ktx.ReadRecord | ktxjuggle/ktx.py:36-97 | the reading part of `fromBinary` gives exactly `Parse` of the stream: the same result and the same log |
| KtxFile.Ktx.FromBinary | ktxjuggle/ktx.py:36-99 | `fromBinary` returns a fresh object whose value is `Load(stream)`, or raises `Load`'s error, and logs `Load`'s log |
| KtxFile.LoadOutcome | ktxjuggle/ktx.py:36-99 | `fromBinary` raises EOFError exactly when the header or the metadata is cut short, and UnicodeDecodeError exactly when a reserved key is not UTF-8; it logs the reader's notes and then the validator's; otherwise it returns the texture read |
| KtxFile.LoadEncoded | ktxjuggle/ktx.py:36-166 | `fromBinary(toBinary(t))` of a well-formed, validating `t` returns `t` and logs the endianness note and `validate`'s notes for `t` |

## Left out

- `Ktx.fromJson`, `Ktx.toJson`, `ktxjuggle/__main__.py` and the `gl` name tables are not part of this model.
- Streams are byte sequences with a position. File handles, `seek` and `tell` are modelled by that position.
- Logger message texts and levels become `Diagnostic` values. Their order is kept; the formatting is not.
- `key.decode()` is modelled by a UTF-8 validity predicate (Unicode's table of well-formed byte sequences). The decoded text itself is only used in a log message, which is not modelled.
- The fields of a new `Ktx` are `None` in Python. Here they start empty or zero, because every path that reads them assigns them first.
- KtxFile.Ktx.ToBinary: requires every metadata record length to fit in 32 bits. The `OverflowError` that `int.to_bytes` raises for a longer record is not modelled.
- KtxFile.Ktx.ToBinary: the fields are those of a `Texture`, so a value that is not a 32-bit word (the `TypeError` or `OverflowError` for a field set from outside) cannot occur.
- `Percent.PctDecode` accepts the ASCII digits and signs of `int(t, 16)` and the whitespace it strips (tab, line feed, vertical tab, form feed, carriage return, space, and non-ASCII `str.isspace()` characters). The non-ASCII Unicode digits Python's `int` also accepts are not modelled.
- `fromBinary` reads the twelve header words in one loop (`ReadHeaderWords`) rather than twelve statements.
- `fromBinary` fills the object with the record read through the `FromRecord` constructor, rather than one field at a time.
- The image loop inside each level is its own method (`ReadLevelImages`).
- KtxRewrite.ParseThenEncode: requires zero padding and a read without warnings. `toBinary` always writes zero padding, drops records without a NUL, and writes nothing for levels that were never read, so no stronger statement holds.
- The reader and the writer model the big-endian word swap as it is evidently intended. The code as written is modelled alongside it (see Findings).

## Findings

| source | as written | input that shows it | evidently intended | confidence | as-written member | corrected member |
|---|---|---|---|---|---|---|
| ktxjuggle/binary.py:18-22 | `b.append(reversed(...))` hands an iterator to `bytearray.append`, which takes an int, so every big-endian read with `wordSize > 1` raises TypeError | a big-endian KTX file with `glTypeSize` 2 and one level of image data | each `wordSize` chunk is read and its bytes reversed, so the images come out in little-endian word order | not executed | Binary.SwappedReadAsWritten | Binary.Reader.Bytes |
| ktxjuggle/binary.py:45-47 | `stream.write(reversed(...))` hands an iterator to `write`, which takes a bytes-like object, so every non-empty big-endian write with `wordSize > 1` raises TypeError | `toBinary` with endian `big` on a texture with `glTypeSize` 2 and a non-empty image | each `wordSize` chunk is written reversed, which undoes the reader's swap | not executed | Binary.SwappedWriteAsWritten | Binary.Writer.Bytes |
