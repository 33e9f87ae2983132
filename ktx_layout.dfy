/**
 * The KTX 1.1 container of ktxjuggle/ktx.py as a value, and its binary
 * layout: Parse says what `Ktx.fromBinary` reads from a byte stream, and
 * Encode says what `Ktx.toBinary` writes. The main law, RoundTrip, says that
 * parsing an encoding gives back the record it encoded, and
 * ByteExactRoundTrip that such an encoding, read and written again in the
 * byte order it was read in, is the same bytes. The other direction, from a
 * stream given by its bytes, is the module KtxRewrite.
 */
module KtxLayout {
  import opened Base
  import opened Binary

  /** `Ktx.IDENTIFIER`: «KTX 11»\r\n\x1A\n. */
  const IDENTIFIER: seq<byte> := [0xAB, 0x4B, 0x54, 0x58, 0x20, 0x31, 0x31, 0xBB, 0x0D, 0x0A, 0x1A, 0x0A]

  /** The endianness marker as a reader in the file's own byte order sees it. */
  const NATIVE_ENDIANNESS: uint32 := 0x0403_0201

  /** The marker of a file written in the other byte order. */
  const SWAPPED_ENDIANNESS: uint32 := 0x0102_0304

  /** The identifier and thirteen 32-bit header words. */
  const HEADER_SIZE: nat := 64

  /** One key/value pair of the metadata block. */
  datatype KeyValue = KeyValue(key: seq<byte>, value: seq<byte>)

  /** One mipmap level: its declared image size and its images (faces). */
  datatype Level = Level(imageSize: uint32, images: seq<seq<byte>>)

  /** The fields of a `Ktx` object (ktx.py:18-33). */
  datatype Texture = Texture(
    identifier: seq<byte>,
    endianness: uint32,
    glType: uint32,
    glTypeSize: uint32,
    glFormat: uint32,
    glInternalFormat: uint32,
    glBaseInternalFormat: uint32,
    pixelWidth: uint32,
    pixelHeight: uint32,
    pixelDepth: uint32,
    numberOfArrayElements: uint32,
    numberOfFaces: uint32,
    numberOfMipmapLevels: uint32,
    bytesOfKeyValueData: uint32,
    metadata: seq<KeyValue>,
    levels: seq<Level>)
  {
    /** `isOESCPT`: the internal format is one of the paletted GL_PALETTE* formats. */
    predicate IsOESCPT() {
      0x8B90 <= glInternalFormat <= 0x8B99
    }

    /** `isNonArrayCubemap`: six faces and no array elements. */
    predicate IsNonArrayCubemap() {
      numberOfArrayElements == 0 && numberOfFaces == 6
    }
  }

  /** The number of levels `fromBinary` tries to read. */
  function LevelCount(t: Texture): (n: nat)
    ensures n >= 1
    ensures n == 1 <==> t.numberOfMipmapLevels <= 1 || t.IsOESCPT()
    ensures n != 1 ==> n == t.numberOfMipmapLevels
  {
    if t.numberOfMipmapLevels == 0 || t.IsOESCPT() then 1 else t.numberOfMipmapLevels
  }

  /** The number of images in each level. */
  function ImagesPerLevel(t: Texture): (n: nat)
    ensures n == 6 <==> t.IsNonArrayCubemap()
    ensures n == 1 <==> !t.IsNonArrayCubemap()
  {
    if t.IsNonArrayCubemap() then 6 else 1
  }

  /** The logged messages of the codec and the validator, as tags. */
  datatype Diagnostic =
    // fromBinary
    | BigEndianInput
    | MissingNul
    | MetadataOverrun
    | TruncatedImageData
    | TrailingBytes
    // validate: the header
    | InvalidIdentifier
    | InvalidEndianness
    | ZeroTypeSize
    | ZeroWidth
    | ZeroHeight
    | BadFaceCount
    | PaletteFaceCount
    | LevelCountMismatch
    // validate: metadata entry `entry`
    | EmptyKey(entry: nat)
    | EmptyValue(entry: nat)
    | DuplicateKey(entry: nat)
    | UnknownReservedKey(entry: nat)
    // validate: level `level`, image `face`
    | FaceCountMismatch(level: nat)
    | ImageSizeIncrease(level: nat)
    | ImageSizeMismatch(level: nat, face: nat)
    | NotTypeSizeMultiple(level: nat, face: nat)

  /** An outcome together with what was logged on the way to it. */
  datatype Logged<+T> = Logged(result: Result<T, Exception>, log: seq<Diagnostic>)

  // ---------------------------------------------------------------------
  // Decoding
  // ---------------------------------------------------------------------

  /**
   * `n` consecutive 32-bit words from offset `pos`, read in byte order
   * `endian`, as successive `Reader.uint32` calls return them.
   */
  function Words(s: seq<byte>, pos: nat, n: nat, endian: Endian): (r: seq<uint32>)
    requires pos + 4 * n <= |s|
    ensures |r| == n
    decreases n
  {
    if n == 0 then [] else [FromBytes(s[pos..pos + 4], endian)] + Words(s, pos + 4, n - 1, endian)
  }

  /** A run one word longer ends with the word after the shorter run. */
  lemma {:induction false} WordsSnoc(s: seq<byte>, pos: nat, n: nat, endian: Endian)
    requires pos + 4 * (n + 1) <= |s|
    ensures Words(s, pos, n + 1, endian) == Words(s, pos, n, endian) + [FromBytes(s[pos + 4 * n..pos + 4 * n + 4], endian)]
    decreases n
  {
    if n > 0 {
      WordsSnoc(s, pos + 4, n - 1, endian);
      assert (pos + 4) + 4 * (n - 1) == pos + 4 * n;
      AppendAssoc([FromBytes(s[pos..pos + 4], endian)], Words(s, pos + 4, n - 1, endian), [FromBytes(s[pos + 4 * n..pos + 4 * n + 4], endian)]);
    }
  }

  /** The endianness marker, the word after the identifier, read little-endian. */
  function Marker(s: seq<byte>): uint32
    requires 16 <= |s|
  {
    FromBytes(s[12..16], Little)
  }

  /** The marker selects the byte order of everything after it. */
  function StreamEndian(s: seq<byte>): Endian
    requires 16 <= |s|
  {
    if Marker(s) == SWAPPED_ENDIANNESS then Big else Little
  }

  /** The index of the first NUL byte. */
  function NulIndex(kv: seq<byte>): (i: nat)
    requires 0 in kv
    ensures i < |kv| && kv[i] == 0 && 0 !in kv[..i]
  {
    if kv[0] == 0 then 0
    else
      assert 0 in kv[1..] by {
        var j :| 0 <= j < |kv| && kv[j] == 0;
        assert kv[1..][j - 1] == 0;
      }
      var i := 1 + NulIndex(kv[1..]);
      assert kv[..i] == [kv[0]] + kv[1..][..i - 1];
      i
  }

  /** `keyAndValue.split(b'\0', maxsplit=1)`. */
  function SplitEntry(kv: seq<byte>): (e: KeyValue)
    requires 0 in kv
    ensures 0 !in e.key && e.key + [0] + e.value == kv
  {
    var i := NulIndex(kv);
    assert kv == kv[..i] + [0] + kv[i + 1..];
    KeyValue(kv[..i], kv[i + 1..])
  }

  /**
   * One pass of the metadata loop's `try` block at position `pos` of the
   * block `m`: a length, that many bytes, then padding to a multiple of 4.
   */
  function RecordAt(m: seq<byte>, pos: nat, endian: Endian): (r: Result<Step<seq<byte>>, Exception>)
    ensures r.Success? ==> pos + 4 + |r.value.value| <= r.value.next <= |m|
  {
    var size :- Uint32At(m, pos, endian);
    var kv :- BytesAt(m, size.next, size.value, endian, 1);
    var next :- AlignAt(m, kv.next, 4);
    Success(Step(kv.value, next))
  }

  datatype MetaParse = MetaParse(entries: seq<KeyValue>, log: seq<Diagnostic>)

  /**
   * The metadata loop of `fromBinary` over the key/value block `m`, from
   * position `pos` of the block: a length, that many bytes, padding to a
   * multiple of 4; an entry with a NUL is split at it, one without is
   * dropped, and any short read ends the loop.
   */
  function ParseMetadata(m: seq<byte>, pos: nat, endian: Endian): MetaParse
    decreases |m| - pos
  {
    if pos >= |m| then MetaParse([], [])
    else match RecordAt(m, pos, endian)
      case Failure(_) => MetaParse([], [MetadataOverrun])
      case Success(kv) =>
        var rest := ParseMetadata(m, kv.next, endian);
        if 0 in kv.value then MetaParse([SplitEntry(kv.value)] + rest.entries, rest.log)
        else MetaParse(rest.entries, [MissingNul] + rest.log)
  }

  /**
   * The metadata loop keeps only keys without a NUL, and logs nothing but
   * records without a separator and records that overrun the block.
   */
  lemma {:induction false} ParseMetadataSound(m: seq<byte>, pos: nat, endian: Endian)
    ensures forall e <- ParseMetadata(m, pos, endian).entries :: 0 !in e.key
    ensures forall d <- ParseMetadata(m, pos, endian).log :: d == MissingNul || d == MetadataOverrun
    decreases |m| - pos
  {
    if pos < |m| {
      match RecordAt(m, pos, endian)
      case Failure(_) =>
      case Success(kv) =>
        ParseMetadataSound(m, kv.next, endian);
        var rest := ParseMetadata(m, kv.next, endian);
        var r := ParseMetadata(m, pos, endian);
        if 0 in kv.value {
          var e := SplitEntry(kv.value);
          assert r == MetaParse([e] + rest.entries, rest.log);
          forall x | x in r.entries ensures 0 !in x.key {
            if x != e {
              assert x in rest.entries;
            }
          }
        } else {
          assert r == MetaParse(rest.entries, [MissingNul] + rest.log);
          forall d | d in r.log ensures d == MissingNul || d == MetadataOverrun {
            if d != MissingNul {
              assert d in rest.log;
            }
          }
        }
    }
  }

  /**
   * Where the metadata loop stops: at the end of the block, or at the first
   * record it cannot read whole.
   */
  function MetadataEnd(m: seq<byte>, pos: nat, endian: Endian): (e: nat)
    ensures pos <= e
    decreases |m| - pos
  {
    if pos >= |m| then pos
    else match RecordAt(m, pos, endian)
      case Failure(_) => pos
      case Success(kv) => MetadataEnd(m, kv.next, endian)
  }

  /**
   * The overrun warning is logged exactly when the loop stops inside the
   * block, and it stops there only at a record that overruns the block.
   */
  lemma {:induction false} OverrunLogged(m: seq<byte>, pos: nat, endian: Endian)
    ensures MetadataOverrun in ParseMetadata(m, pos, endian).log <==> MetadataEnd(m, pos, endian) < |m|
    ensures MetadataEnd(m, pos, endian) < |m| ==> RecordAt(m, MetadataEnd(m, pos, endian), endian).Failure?
    decreases |m| - pos
  {
    if pos < |m| {
      match RecordAt(m, pos, endian)
      case Failure(_) =>
      case Success(kv) =>
        OverrunLogged(m, kv.next, endian);
        var rest := ParseMetadata(m, kv.next, endian);
        if 0 !in kv.value {
          assert ParseMetadata(m, pos, endian).log == [MissingNul] + rest.log;
        }
    }
  }

  /** `count` images of `size` bytes from position `pos`, each followed by padding to 4. */
  function ReadImages(s: seq<byte>, pos: nat, endian: Endian, wordSize: nat, size: nat, count: nat)
    : (r: Result<Step<seq<seq<byte>>>, Exception>)
    requires pos <= |s|
    ensures r.Success? ==> pos <= r.value.next <= |s| && |r.value.value| == count
    ensures r.Failure? ==> r.error == EOFError
    decreases count
  {
    if count == 0 then Success(Step([], pos))
    else match BytesAt(s, pos, size, endian, wordSize)
      case Failure(e) => Failure(e)
      case Success(image) =>
        match AlignAt(s, image.next, 4)
        case Failure(e) => Failure(e)
        case Success(next) =>
          match ReadImages(s, next, endian, wordSize, size, count - 1)
          case Failure(e) => Failure(e)
          case Success(rest) =>
            Success(Step([image.value] + rest.value, rest.next))
  }

  /** The images read so far put in front of what the rest of a `ReadImages` run yields. */
  function WithImages(images: seq<seq<byte>>, r: Result<Step<seq<seq<byte>>>, Exception>)
    : (q: Result<Step<seq<seq<byte>>>, Exception>)
    ensures q.Success? <==> r.Success?
  {
    match r
    case Failure(e) => Failure(e)
    case Success(st) => Success(Step(images + st.value, st.next))
  }

  /** Nothing read so far leaves a run as it is. */
  lemma WithNoImages(r: Result<Step<seq<seq<byte>>>, Exception>)
    ensures WithImages([], r) == r
  {
    if r.Success? {
      EmptyAppend(r.value.value);
    }
  }

  /** One image and its padding read at `pos`, the run carries on after them. */
  lemma ReadImagesStep(s: seq<byte>, pos: nat, endian: Endian, wordSize: nat, size: nat, count: nat,
                       images: seq<seq<byte>>, image: seq<byte>, next: nat)
    requires pos <= |s| && 0 < count
    requires BytesAt(s, pos, size, endian, wordSize) == Success(Step(image, pos + size))
    requires AlignAt(s, pos + size, 4) == Success(next)
    ensures next <= |s|
    ensures WithImages(images, ReadImages(s, pos, endian, wordSize, size, count))
         == WithImages(images + [image], ReadImages(s, next, endian, wordSize, size, count - 1))
  {
    match ReadImages(s, next, endian, wordSize, size, count - 1)
    case Failure(_) =>
    case Success(rest) => AppendAssoc(images, [image], rest.value);
  }

  /** Every image of `images` holds `size` bytes. */
  predicate Sized(images: seq<seq<byte>>, size: nat)
    decreases |images|
  {
    |images| == 0 || (|images[0]| == size && Sized(images[1..], size))
  }

  /** Every image `ReadImages` returns has the size it was asked for. */
  lemma {:induction false} ReadImagesSized(s: seq<byte>, pos: nat, endian: Endian, wordSize: nat, size: nat, count: nat)
    requires pos <= |s|
    ensures ReadImages(s, pos, endian, wordSize, size, count).Success? ==>
      Sized(ReadImages(s, pos, endian, wordSize, size, count).value.value, size)
    decreases count
  {
    if count > 0 {
      var r := ReadImages(s, pos, endian, wordSize, size, count);
      match BytesAt(s, pos, size, endian, wordSize)
      case Failure(_) =>
      case Success(image) =>
        match AlignAt(s, image.next, 4)
        case Failure(_) =>
        case Success(next) =>
          ReadImagesSized(s, next, endian, wordSize, size, count - 1);
          var rest := ReadImages(s, next, endian, wordSize, size, count - 1);
          if rest.Success? {
            assert r.value.value == [image.value] + rest.value.value;
            assert r.value.value[1..] == rest.value.value;
          }
    }
  }

  /** `Sized` image by image. */
  lemma {:induction false} SizedIndex(images: seq<seq<byte>>, size: nat, j: nat)
    requires Sized(images, size) && j < |images|
    ensures |images[j]| == size
    decreases j
  {
    if j > 0 {
      SizedIndex(images[1..], size, j - 1);
    }
  }

  datatype LevelParse = LevelParse(levels: seq<Level>, next: nat, log: seq<Diagnostic>)

  /**
   * The level loop of `fromBinary`: up to `count` levels from position
   * `pos`, each an image size and `faces` images; any short read ends the
   * loop with the levels read so far and leaves the stream at its end.
   */
  function ParseLevels(s: seq<byte>, pos: nat, endian: Endian, wordSize: nat, faces: nat, count: nat)
    : (r: LevelParse)
    requires pos <= |s|
    ensures |r.levels| <= count && pos <= r.next <= |s|
    ensures r.log == [] || r.log == [TruncatedImageData]
    ensures r.log == [TruncatedImageData] <==> |r.levels| < count
    decreases count
  {
    if count == 0 then LevelParse([], pos, [])
    else match Uint32At(s, pos, endian)
      case Failure(_) => LevelParse([], |s|, [TruncatedImageData])
      case Success(size) =>
        match ReadImages(s, size.next, endian, wordSize, size.value, faces)
        case Failure(_) => LevelParse([], |s|, [TruncatedImageData])
        case Success(images) =>
          var rest := ParseLevels(s, images.next, endian, wordSize, faces, count - 1);
          LevelParse([Level(size.value, images.value)] + rest.levels, rest.next, rest.log)
  }

  /** Levels as the reader builds them: `faces` images each, every image of its level's image size. */
  predicate Shaped(levels: seq<Level>, faces: nat)
    decreases |levels|
  {
    |levels| == 0 || (|levels[0].images| == faces && Sized(levels[0].images, levels[0].imageSize)
                      && Shaped(levels[1..], faces))
  }

  /** Every level `ParseLevels` returns has `faces` images of its image size. */
  lemma {:induction false} ParseLevelsShaped(s: seq<byte>, pos: nat, endian: Endian, wordSize: nat, faces: nat, count: nat)
    requires pos <= |s|
    ensures Shaped(ParseLevels(s, pos, endian, wordSize, faces, count).levels, faces)
    decreases count
  {
    if count > 0 {
      var r := ParseLevels(s, pos, endian, wordSize, faces, count);
      match Uint32At(s, pos, endian)
      case Failure(_) =>
      case Success(size) =>
        match ReadImages(s, size.next, endian, wordSize, size.value, faces)
        case Failure(_) =>
        case Success(images) =>
          ReadImagesSized(s, size.next, endian, wordSize, size.value, faces);
          ParseLevelsShaped(s, images.next, endian, wordSize, faces, count - 1);
          var rest := ParseLevels(s, images.next, endian, wordSize, faces, count - 1);
          assert r.levels == [Level(size.value, images.value)] + rest.levels;
          assert r.levels[1..] == rest.levels;
    }
  }

  /** `Shaped` level by level. */
  lemma {:induction false} ShapedIndex(levels: seq<Level>, faces: nat, i: nat)
    requires Shaped(levels, faces) && i < |levels|
    ensures |levels[i].images| == faces && Sized(levels[i].images, levels[i].imageSize)
    decreases i
  {
    if i > 0 {
      ShapedIndex(levels[1..], faces, i - 1);
    }
  }

  /** What every record `fromBinary` reads satisfies before it is validated. */
  predicate WellRead(t: Texture)
  {
    && t.endianness != SWAPPED_ENDIANNESS
    && |t.levels| <= LevelCount(t)
    && (forall kv <- t.metadata :: 0 !in kv.key)
    && Shaped(t.levels, ImagesPerLevel(t))
  }

  /** The record `fromBinary` builds from the header words, before any metadata or level. */
  function HeaderOf(s: seq<byte>, endian: Endian): Texture
    requires HEADER_SIZE <= |s|
  {
    var marker := Marker(s);
    var w := Words(s, 16, 12, endian);
    Texture(
      s[..12],
      if marker == SWAPPED_ENDIANNESS then NATIVE_ENDIANNESS else marker,
      w[0], w[1], w[2], w[3], w[4], w[5], w[6], w[7], w[8], w[9], w[10], w[11],
      [], [])
  }

  /** The header read from its parts: the identifier, the normalised marker and the twelve words. */
  lemma HeaderOfParts(s: seq<byte>, endian: Endian, id: seq<byte>, marker: uint32, w: seq<uint32>)
    requires HEADER_SIZE <= |s| && id == s[..12] && w == Words(s, 16, 12, endian)
    requires marker == if Marker(s) == SWAPPED_ENDIANNESS then NATIVE_ENDIANNESS else Marker(s)
    ensures HeaderOf(s, endian) == Texture(id, marker, w[0], w[1], w[2], w[3], w[4], w[5], w[6], w[7], w[8], w[9], w[10], w[11], [], [])
  {
  }

  /** The note `fromBinary` logs when the marker shows a big-endian stream. */
  function EndianNote(endian: Endian): seq<Diagnostic>
  {
    if endian == Big then [BigEndianInput] else []
  }

  /**
   * The messages `fromBinary` logs while reading a stream of `size` bytes:
   * the byte-order note, those of the key/value block, those of the levels,
   * and a warning when the levels end before the stream does.
   */
  function ReadLog(endian: Endian, meta: MetaParse, lv: LevelParse, size: nat): seq<Diagnostic>
  {
    EndianNote(endian) + meta.log + lv.log + (if lv.next < size then [TrailingBytes] else [])
  }

  /**
   * `Ktx.fromBinary` up to its final `validate()`: the record read from `s`
   * and the messages logged, or the EOFError of a header or key/value block
   * cut short.
   */
  function Parse(s: seq<byte>): Logged<Texture>
  {
    if |s| < 16 then Logged(Failure(EOFError), [])
    else
      var endian := StreamEndian(s);
      var logged := EndianNote(endian);
      if |s| < HEADER_SIZE then Logged(Failure(EOFError), logged)
      else
        var h := HeaderOf(s, endian);
        var kvSize := h.bytesOfKeyValueData;
        if HEADER_SIZE + kvSize > |s| then Logged(Failure(EOFError), logged)
        else
          var meta := ParseMetadata(s[HEADER_SIZE..HEADER_SIZE + kvSize], 0, endian);
          var lv := ParseLevels(s, HEADER_SIZE + kvSize, endian, h.glTypeSize, ImagesPerLevel(h), LevelCount(h));
          Logged(Success(h.(metadata := meta.entries, levels := lv.levels)), ReadLog(endian, meta, lv, |s|))
  }

  /** `Parse` of a stream whose header, key/value block and levels have been read. */
  lemma ParseOfReads(s: seq<byte>, endian: Endian, h: Texture, meta: MetaParse, lv: LevelParse)
    requires HEADER_SIZE <= |s| && endian == StreamEndian(s) && h == HeaderOf(s, endian)
    requires HEADER_SIZE + h.bytesOfKeyValueData <= |s|
    requires ParseMetadata(s[HEADER_SIZE..HEADER_SIZE + h.bytesOfKeyValueData], 0, endian) == meta
    requires ParseLevels(s, HEADER_SIZE + h.bytesOfKeyValueData, endian, h.glTypeSize, ImagesPerLevel(h), LevelCount(h)) == lv
    ensures Parse(s) == Logged(Success(h.(metadata := meta.entries, levels := lv.levels)), ReadLog(endian, meta, lv, |s|))
  {
  }

  /** Of all that reading logs, only the level loop logs a truncation. */
  lemma TruncationInLog(endian: Endian, meta: MetaParse, lv: LevelParse, size: nat)
    requires forall d <- meta.log :: d == MissingNul || d == MetadataOverrun
    ensures TruncatedImageData in ReadLog(endian, meta, lv, size) <==> TruncatedImageData in lv.log
  {
  }

  /**
   * What `fromBinary` promises before validation: it fails, with EOFError,
   * exactly when the header or the key/value block is cut short; otherwise
   * the marker is normalised, keys hold no NUL, and no more levels are read
   * than the header announces, each with one image per face; fewer are
   * read exactly when the truncation warning is logged.
   */
  lemma ParseOutcome(s: seq<byte>)
    ensures Parse(s).result.Failure? <==>
      |s| < HEADER_SIZE || HEADER_SIZE + HeaderOf(s, StreamEndian(s)).bytesOfKeyValueData > |s|
    ensures Parse(s).result.Failure? ==> Parse(s).result.error == EOFError
    ensures Parse(s).result.Success? ==> WellRead(Parse(s).result.value)
    ensures Parse(s).result.Success? ==>
      (TruncatedImageData in Parse(s).log <==> |Parse(s).result.value.levels| < LevelCount(Parse(s).result.value))
  {
    if HEADER_SIZE <= |s| {
      var endian := StreamEndian(s);
      var h := HeaderOf(s, endian);
      var kvSize := h.bytesOfKeyValueData;
      if HEADER_SIZE + kvSize <= |s| {
        var meta := ParseMetadata(s[HEADER_SIZE..HEADER_SIZE + kvSize], 0, endian);
        var lv := ParseLevels(s, HEADER_SIZE + kvSize, endian, h.glTypeSize, ImagesPerLevel(h), LevelCount(h));
        ParseMetadataSound(s[HEADER_SIZE..HEADER_SIZE + kvSize], 0, endian);
        ParseLevelsShaped(s, HEADER_SIZE + kvSize, endian, h.glTypeSize, ImagesPerLevel(h), LevelCount(h));
        var t := h.(metadata := meta.entries, levels := lv.levels);
        assert Parse(s).result == Success(t);
        assert ImagesPerLevel(t) == ImagesPerLevel(h) && LevelCount(t) == LevelCount(h);
        assert WellRead(t);
        TruncationInLog(endian, meta, lv, |s|);
      }
    }
  }

  // ---------------------------------------------------------------------
  // Encoding
  // ---------------------------------------------------------------------

  /** `key + b'\0' + value`. */
  function Record(kv: KeyValue): seq<byte> {
    kv.key + [0] + kv.value
  }

  /** Every record's length fits the 32-bit word written before it. */
  predicate RecordsFit(md: seq<KeyValue>) {
    forall i :: 0 <= i < |md| ==> |Record(md[i])| < 0x1_0000_0000
  }

  /** `out` followed by the zero bytes `Writer.align(4)` appends to it. */
  function Aligned(out: seq<byte>): seq<byte> {
    out + Zeros(Padding(|out|, 4))
  }

  /** The twelve header words after the endianness marker, in file order. */
  function HeaderWords(t: Texture): (w: seq<uint32>)
    ensures |w| == 12
  {
    [t.glType, t.glTypeSize, t.glFormat, t.glInternalFormat, t.glBaseInternalFormat, t.pixelWidth,
     t.pixelHeight, t.pixelDepth, t.numberOfArrayElements, t.numberOfFaces, t.numberOfMipmapLevels,
     t.bytesOfKeyValueData]
  }

  /** Words written one after another, each by `Writer.uint32` in byte order `endian`. */
  function WordBytes(w: seq<uint32>, endian: Endian): (b: seq<byte>)
    ensures |b| == 4 * |w|
    decreases |w|
  {
    if |w| == 0 then [] else ToBytes(w[0], endian) + WordBytes(w[1..], endian)
  }

  /** The 64 header bytes `toBinary` writes: identifier, marker, then the header words. */
  function HeaderBytes(t: Texture, endian: Endian): seq<byte> {
    t.identifier + ToBytes(t.endianness, endian) + WordBytes(HeaderWords(t), endian)
  }

  /** `out` followed by the metadata records of `md`, each length-prefixed and padded. */
  function EncodeMetadata(out: seq<byte>, md: seq<KeyValue>, endian: Endian): seq<byte>
    requires RecordsFit(md)
    decreases |md|
  {
    if md == [] then out
    else EncodeMetadata(Aligned(out + ToBytes(|Record(md[0])|, endian) + Record(md[0])), md[1..], endian)
  }

  /** `out` followed by `images`, each transferred per word and padded. */
  function EncodeImages(out: seq<byte>, images: seq<seq<byte>>, endian: Endian, wordSize: nat): seq<byte>
    decreases |images|
  {
    if images == [] then out
    else EncodeImages(Aligned(out + Transfer(images[0], endian, wordSize)), images[1..], endian, wordSize)
  }

  /** `out` followed by `levels`, each its image size and then its images. */
  function EncodeLevels(out: seq<byte>, levels: seq<Level>, endian: Endian, wordSize: nat): seq<byte>
    decreases |levels|
  {
    if levels == [] then out
    else EncodeLevels(EncodeImages(out + ToBytes(levels[0].imageSize, endian), levels[0].images, endian, wordSize),
                      levels[1..], endian, wordSize)
  }

  /** `Ktx.toBinary(stream, endian)`: everything written, in byte order `endian`. */
  function Encode(t: Texture, endian: Endian): seq<byte>
    requires RecordsFit(t.metadata)
  {
    EncodeLevels(EncodeMetadata(HeaderBytes(t, endian), t.metadata, endian), t.levels, endian, t.glTypeSize)
  }

  /** Writing one more word appends its four bytes. */
  lemma {:induction false} WordBytesSnoc(w: seq<uint32>, x: uint32, endian: Endian)
    ensures WordBytes(w + [x], endian) == WordBytes(w, endian) + ToBytes(x, endian)
    decreases |w|
  {
    if w == [] {
      assert w + [x] == [x];
      assert WordBytes([x], endian) == ToBytes(x, endian) + WordBytes([], endian);
      EmptyAppend(ToBytes(x, endian));
    } else {
      assert (w + [x])[1..] == w[1..] + [x];
      WordBytesSnoc(w[1..], x, endian);
      AppendAssoc(ToBytes(w[0], endian), WordBytes(w[1..], endian), ToBytes(x, endian));
    }
  }

  /** `Writer.uint32` after words already written: the words so far and one more. */
  lemma AppendWord(head: seq<byte>, w: seq<uint32>, x: uint32, endian: Endian)
    ensures head + WordBytes(w, endian) + ToBytes(x, endian) == head + WordBytes(w + [x], endian)
  {
    WordBytesSnoc(w, x, endian);
    AppendAssoc(head, WordBytes(w, endian), ToBytes(x, endian));
  }

  /** The header words up to word `k`, then word `k`, are the header words up to word `k + 1`. */
  lemma WordWritten(head: seq<byte>, w: seq<uint32>, k: nat, endian: Endian)
    requires k < |w|
    ensures head + WordBytes(w[..k], endian) + ToBytes(w[k], endian) == head + WordBytes(w[..k + 1], endian)
  {
    AppendWord(head, w[..k], w[k], endian);
    TakeSnoc(w, k);
  }

  /** The metadata loop of `toBinary` at entry `i`: one record, then the entries after it. */
  lemma EncodeMetadataStep(out: seq<byte>, md: seq<KeyValue>, i: nat, endian: Endian)
    requires i < |md| && RecordsFit(md)
    ensures RecordsFit(md[i..]) && RecordsFit(md[i + 1..]) && |Record(md[i])| < 0x1_0000_0000
    ensures EncodeMetadata(out, md[i..], endian)
         == EncodeMetadata(Aligned(out + ToBytes(|Record(md[i])|, endian) + Record(md[i])), md[i + 1..], endian)
  {
    assert md[i..][0] == md[i] && md[i..][1..] == md[i + 1..];
  }

  /** The image loop of `toBinary` at image `j`: one image, then the images after it. */
  lemma EncodeImagesStep(out: seq<byte>, images: seq<seq<byte>>, j: nat, endian: Endian, wordSize: nat)
    requires j < |images|
    ensures EncodeImages(out, images[j..], endian, wordSize)
         == EncodeImages(Aligned(out + Transfer(images[j], endian, wordSize)), images[j + 1..], endian, wordSize)
  {
    assert images[j..][0] == images[j] && images[j..][1..] == images[j + 1..];
  }

  /** The level loop of `toBinary` at level `i`: its image size and images, then the levels after it. */
  lemma EncodeLevelsStep(out: seq<byte>, levels: seq<Level>, i: nat, endian: Endian, wordSize: nat)
    requires i < |levels|
    ensures EncodeLevels(out, levels[i..], endian, wordSize)
         == EncodeLevels(EncodeImages(out + ToBytes(levels[i].imageSize, endian), levels[i].images, endian, wordSize),
                         levels[i + 1..], endian, wordSize)
  {
    assert levels[i..][0] == levels[i] && levels[i..][1..] == levels[i + 1..];
  }

  // ---------------------------------------------------------------------
  // The round trip
  // ---------------------------------------------------------------------

  /** The length of the metadata block once every record is padded. */
  function MetadataSize(md: seq<KeyValue>): nat
    decreases |md|
  {
    if md == [] then 0
    else 4 + |Record(md[0])| + Padding(|Record(md[0])|, 4) + MetadataSize(md[1..])
  }

  /**
   * A record the codec reproduces in byte order `endian`: a 12-byte
   * identifier; a marker that a reader recognises as `endian`; records whose
   * keys have no NUL and whose length fits 32 bits; a stored key/value size
   * equal to the padded records; and exactly the levels and images, of
   * exactly their declared size, that `fromBinary` reads.
   */
  predicate WellFormed(t: Texture, endian: Endian) {
    && |t.identifier| == 12
    && (if endian == Big then t.endianness == NATIVE_ENDIANNESS else t.endianness != SWAPPED_ENDIANNESS)
    && RecordsFit(t.metadata)
    && (forall i :: 0 <= i < |t.metadata| ==> 0 !in t.metadata[i].key)
    && t.bytesOfKeyValueData == MetadataSize(t.metadata)
    && |t.levels| == LevelCount(t)
    && (forall i :: 0 <= i < |t.levels| ==> |t.levels[i].images| == ImagesPerLevel(t))
    && (forall i, j :: 0 <= i < |t.levels| && 0 <= j < |t.levels[i].images| ==>
          |t.levels[i].images[j]| == t.levels[i].imageSize)
  }

  lemma RecordsFitTail(md: seq<KeyValue>)
    requires md != [] && RecordsFit(md)
    ensures RecordsFit(md[1..])
  {
    forall i | 0 <= i < |md| - 1 ensures |Record(md[1..][i])| < 0x1_0000_0000 {
      assert md[1..][i] == md[i + 1];
    }
  }

  /** Padding to 4 does not depend on a prefix that is already a multiple of 4. */
  lemma PaddingShift(p: nat, q: nat)
    requires p % 4 == 0
    ensures Padding(p + q, 4) == Padding(q, 4)
  {
  }

  lemma {:induction false} EncodeMetadataPrefix(out: seq<byte>, md: seq<KeyValue>, endian: Endian)
    requires RecordsFit(md)
    ensures out <= EncodeMetadata(out, md, endian)
    ensures |out| % 4 == 0 ==> |EncodeMetadata(out, md, endian)| == |out| + MetadataSize(md)
    decreases |md|
  {
    if md != [] {
      var r := Record(md[0]);
      var w := out + ToBytes(|r|, endian) + r;
      var next := Aligned(w);
      assert out <= next && |next| == |out| + 4 + |r| + Padding(|w|, 4);
      RecordsFitTail(md);
      EncodeMetadataPrefix(next, md[1..], endian);
      if |out| % 4 == 0 {
        assert |next| % 4 == 0 by {
          PaddingAligns(|w|, 4);
        }
        assert Padding(|w|, 4) == Padding(|r|, 4) by {
          PaddingShift(|out|, 4 + |r|);
          PaddingShift(4, |r|);
        }
      }
    }
  }

  lemma {:induction false} EncodeImagesPrefix(out: seq<byte>, images: seq<seq<byte>>, endian: Endian, wordSize: nat)
    ensures out <= EncodeImages(out, images, endian, wordSize)
    decreases |images|
  {
    if images != [] {
      EncodeImagesPrefix(Aligned(out + Transfer(images[0], endian, wordSize)), images[1..], endian, wordSize);
    }
  }

  lemma {:induction false} EncodeLevelsPrefix(out: seq<byte>, levels: seq<Level>, endian: Endian, wordSize: nat)
    ensures out <= EncodeLevels(out, levels, endian, wordSize)
    decreases |levels|
  {
    if levels != [] {
      var o := out + ToBytes(levels[0].imageSize, endian);
      EncodeImagesPrefix(o, levels[0].images, endian, wordSize);
      EncodeLevelsPrefix(EncodeImages(o, levels[0].images, endian, wordSize), levels[1..], endian, wordSize);
    }
  }

  /** Splitting a record at its first NUL gives back its key and value. */
  lemma SplitRecord(kv: KeyValue)
    requires 0 !in kv.key
    ensures 0 in Record(kv) && SplitEntry(Record(kv)) == kv
  {
    var r := Record(kv);
    var n := |kv.key|;
    assert r[n] == 0;
    var i := NulIndex(r);
    if i < n {
      assert false;
    }
    if i > n {
      assert false;
    }
    assert r[..n] == kv.key && r[n + 1..] == kv.value;
  }

  /** A slice of a stream within a prefix of it is that slice of the prefix. */
  lemma PrefixSlice(p: seq<byte>, s: seq<byte>, i: nat, j: nat)
    requires p <= s && i <= j <= |p|
    ensures s[i..j] == p[i..j]
  {
  }

  /** A record's length word, its bytes and its padding, found in place, read as that record. */
  lemma RecordAtOf(m: seq<byte>, pos: nat, r: seq<byte>, endian: Endian)
    requires |r| < 0x1_0000_0000
    requires pos + 4 + |r| + Padding(pos + 4 + |r|, 4) <= |m|
    requires m[pos..pos + 4] == ToBytes(|r|, endian) && m[pos + 4..pos + 4 + |r|] == r
    ensures RecordAt(m, pos, endian) == Success(Step(r, pos + 4 + |r| + Padding(pos + 4 + |r|, 4)))
  {
    FromToBytes(|r|, endian);
  }

  /** One record written after `out` is read back from there: its length, its bytes, its padding. */
  lemma ReadEncodedRecord(m: seq<byte>, out: seq<byte>, kv: KeyValue, endian: Endian)
    requires |Record(kv)| < 0x1_0000_0000
    requires Aligned(out + ToBytes(|Record(kv)|, endian) + Record(kv)) <= m
    ensures RecordAt(m, |out|, endian)
            == Success(Step(Record(kv), |Aligned(out + ToBytes(|Record(kv)|, endian) + Record(kv))|))
  {
    var r := Record(kv);
    var w := ToBytes(|r|, endian);
    PrefixParts(out, w, r, Zeros(Padding(|out + w + r|, 4)), m);
    RecordAtOf(m, |out|, r, endian);
  }

  /** One step of the metadata loop over a record that holds a NUL. */
  lemma ParseMetadataStep(m: seq<byte>, pos: nat, r: seq<byte>, next: nat, endian: Endian)
    requires pos < |m| && 0 in r
    requires RecordAt(m, pos, endian) == Success(Step(r, next))
    ensures ParseMetadata(m, pos, endian)
         == MetaParse([SplitEntry(r)] + ParseMetadata(m, next, endian).entries, ParseMetadata(m, next, endian).log)
  {
  }

  /** The metadata loop reads one encoded record and carries on after its padding. */
  lemma ParseEncodedRecord(m: seq<byte>, out: seq<byte>, kv: KeyValue, endian: Endian)
    requires |Record(kv)| < 0x1_0000_0000 && 0 !in kv.key
    requires Aligned(out + ToBytes(|Record(kv)|, endian) + Record(kv)) <= m
    ensures var next := |Aligned(out + ToBytes(|Record(kv)|, endian) + Record(kv))|;
      ParseMetadata(m, |out|, endian)
      == MetaParse([kv] + ParseMetadata(m, next, endian).entries, ParseMetadata(m, next, endian).log)
  {
    var r := Record(kv);
    var next := |Aligned(out + ToBytes(|r|, endian) + r)|;
    ReadEncodedRecord(m, out, kv, endian);
    SplitRecord(kv);
    ParseMetadataStep(m, |out|, r, next, endian);
  }

  /** The first record of an encoded block, and where the rest of the block starts. */
  lemma EncodedRecordAt(m: seq<byte>, out: seq<byte>, md: seq<KeyValue>, endian: Endian)
    requires md != [] && RecordsFit(md) && 0 !in md[0].key
    requires |out| % 4 == 0 && EncodeMetadata(out, md, endian) == m
    ensures var r := Record(md[0]);
      var next := Aligned(out + ToBytes(|r|, endian) + r);
      && |out| < |next| && |next| % 4 == 0 && RecordsFit(md[1..])
      && EncodeMetadata(next, md[1..], endian) == m
      && ParseMetadata(m, |out|, endian)
         == MetaParse([md[0]] + ParseMetadata(m, |next|, endian).entries, ParseMetadata(m, |next|, endian).log)
  {
    var r := Record(md[0]);
    var w := out + ToBytes(|r|, endian) + r;
    var next := Aligned(w);
    RecordsFitTail(md);
    assert |next| % 4 == 0 && |out| < |next| by {
      PaddingAligns(|w|, 4);
    }
    assert EncodeMetadata(next, md[1..], endian) == m;
    assert next <= m by {
      EncodeMetadataPrefix(next, md[1..], endian);
    }
    var rest := ParseMetadata(m, |next|, endian);
    ParseEncodedRecord(m, out, md[0], endian);
  }

  /** The records of a well-formed block parse back to the entries, with nothing logged. */
  lemma {:induction false} ParseEncodedMetadata(m: seq<byte>, out: seq<byte>, md: seq<KeyValue>, endian: Endian)
    requires RecordsFit(md) && (forall i :: 0 <= i < |md| ==> 0 !in md[i].key)
    requires |out| % 4 == 0 && EncodeMetadata(out, md, endian) == m
    ensures |out| <= |m|
    ensures ParseMetadata(m, |out|, endian) == MetaParse(md, [])
    decreases |md|
  {
    EncodeMetadataPrefix(out, md, endian);
    if md != [] {
      EncodedRecordAt(m, out, md, endian);
      var r := Record(md[0]);
      var next := Aligned(out + ToBytes(|r|, endian) + r);
      ParseEncodedMetadata(m, next, md[1..], endian);
      ConsTail(md);
    }
  }

  /** One image written after `out` is read back from there, and then its padding is skipped. */
  lemma ReadEncodedImage(s: seq<byte>, out: seq<byte>, image: seq<byte>, endian: Endian, wordSize: nat)
    requires Aligned(out + Transfer(image, endian, wordSize)) <= s
    ensures BytesAt(s, |out|, |image|, endian, wordSize) == Success(Step(image, |out| + |image|))
    ensures AlignAt(s, |out| + |image|, 4) == Success(|Aligned(out + Transfer(image, endian, wordSize))|)
  {
    var t := Transfer(image, endian, wordSize);
    var o1 := out + t;
    PrefixSlice(Aligned(o1), s, |out|, |o1|);
    assert Aligned(o1)[|out|..|o1|] == t;
    TransferTwice(image, endian, wordSize);
  }

  /** A run of images is its first image, its padding and the rest of the run. */
  lemma ReadImagesCons(s: seq<byte>, pos: nat, endian: Endian, wordSize: nat, size: nat, count: nat,
                       image: seq<byte>, next: nat, rest: seq<seq<byte>>, end: nat)
    requires pos <= |s| && 0 < count
    requires BytesAt(s, pos, size, endian, wordSize) == Success(Step(image, pos + size))
    requires AlignAt(s, pos + size, 4) == Success(next)
    requires ReadImages(s, next, endian, wordSize, size, count - 1) == Success(Step(rest, end))
    ensures ReadImages(s, pos, endian, wordSize, size, count) == Success(Step([image] + rest, end))
  {
  }

  /** Images written at `out` are read back from there, up to the padding after the last. */
  lemma {:induction false} ReadEncodedImages(s: seq<byte>, out: seq<byte>, images: seq<seq<byte>>,
                                             endian: Endian, wordSize: nat, size: nat)
    requires forall j :: 0 <= j < |images| ==> |images[j]| == size
    requires EncodeImages(out, images, endian, wordSize) <= s
    ensures |out| <= |s|
    ensures ReadImages(s, |out|, endian, wordSize, size, |images|)
         == Success(Step(images, |EncodeImages(out, images, endian, wordSize)|))
    decreases |images|
  {
    EncodeImagesPrefix(out, images, endian, wordSize);
    if images != [] {
      var next := Aligned(out + Transfer(images[0], endian, wordSize));
      assert next <= s by {
        EncodeImagesPrefix(next, images[1..], endian, wordSize);
      }
      assert |images[0]| == size;
      ReadEncodedImage(s, out, images[0], endian, wordSize);
      assert EncodeImages(out, images, endian, wordSize) == EncodeImages(next, images[1..], endian, wordSize);
      ReadEncodedImages(s, next, images[1..], endian, wordSize, size);
      ReadImagesCons(s, |out|, endian, wordSize, size, |images|, images[0], |next|, images[1..],
                     |EncodeImages(next, images[1..], endian, wordSize)|);
      ConsTail(images);
    }
  }

  /** One level written after `out` is read back: its image size, then its images. */
  lemma ReadEncodedLevel(s: seq<byte>, out: seq<byte>, l: Level, endian: Endian, wordSize: nat, faces: nat)
    requires |l.images| == faces && forall j :: 0 <= j < |l.images| ==> |l.images[j]| == l.imageSize
    requires EncodeImages(out + ToBytes(l.imageSize, endian), l.images, endian, wordSize) <= s
    ensures |out| + 4 <= |s| && Uint32At(s, |out|, endian) == Success(Step(l.imageSize, |out| + 4))
    ensures ReadImages(s, |out| + 4, endian, wordSize, l.imageSize, faces)
         == Success(Step(l.images, |EncodeImages(out + ToBytes(l.imageSize, endian), l.images, endian, wordSize)|))
  {
    var w := ToBytes(l.imageSize, endian);
    var o1 := out + w;
    var o2 := EncodeImages(o1, l.images, endian, wordSize);
    EncodeImagesPrefix(o1, l.images, endian, wordSize);
    assert s[|out|..|o1|] == w by {
      PrefixSlice(o2, s, |out|, |o1|);
      PrefixPart(out, w, o2);
    }
    FromToBytes(l.imageSize, endian);
    ReadEncodedImages(s, o1, l.images, endian, wordSize, l.imageSize);
  }

  /** A run of levels is its first level and then the rest of the run. */
  lemma ParseLevelsCons(s: seq<byte>, pos: nat, endian: Endian, wordSize: nat, faces: nat, count: nat,
                        l: Level, next: nat, rest: seq<Level>)
    requires pos + 4 <= |s| && 0 < count
    requires Uint32At(s, pos, endian) == Success(Step(l.imageSize, pos + 4))
    requires ReadImages(s, pos + 4, endian, wordSize, l.imageSize, faces) == Success(Step(l.images, next))
    requires ParseLevels(s, next, endian, wordSize, faces, count - 1) == LevelParse(rest, |s|, [])
    ensures ParseLevels(s, pos, endian, wordSize, faces, count) == LevelParse([l] + rest, |s|, [])
  {
  }

  /** Levels written at `out` are read back to the end of the stream, with nothing logged. */
  lemma {:induction false} ParseEncodedLevels(s: seq<byte>, out: seq<byte>, levels: seq<Level>,
                                              endian: Endian, wordSize: nat, faces: nat)
    requires forall i :: 0 <= i < |levels| ==> |levels[i].images| == faces
    requires forall i, j :: 0 <= i < |levels| && 0 <= j < |levels[i].images| ==>
      |levels[i].images[j]| == levels[i].imageSize
    requires EncodeLevels(out, levels, endian, wordSize) == s
    ensures |out| <= |s|
    ensures ParseLevels(s, |out|, endian, wordSize, faces, |levels|) == LevelParse(levels, |s|, [])
    decreases |levels|
  {
    EncodeLevelsPrefix(out, levels, endian, wordSize);
    if levels != [] {
      var l := levels[0];
      var o2 := EncodeImages(out + ToBytes(l.imageSize, endian), l.images, endian, wordSize);
      assert o2 <= s by {
        EncodeLevelsPrefix(o2, levels[1..], endian, wordSize);
      }
      ReadEncodedLevel(s, out, l, endian, wordSize, faces);
      ParseEncodedLevels(s, o2, levels[1..], endian, wordSize, faces);
      ParseLevelsCons(s, |out|, endian, wordSize, faces, |levels|, l, |o2|, levels[1..]);
      ConsTail(levels);
    }
  }

  /** The marker written big-endian reads as the swapped marker little-endian. */
  lemma MarkerSwapped()
    ensures FromBytes(ToBytes(NATIVE_ENDIANNESS, Big), Little) == SWAPPED_ENDIANNESS
  {
    var n: nat := NATIVE_ENDIANNESS;
    assert LowBytes(n, 4) == [1, 2, 3, 4] by {
      assert LowBytes(n / 0x100_0000, 1) == [4];
      assert LowBytes(n / 0x1_0000, 2) == [3, 4];
      assert LowBytes(n / 0x100, 3) == [2, 3, 4];
    }
    ReversedFour(LowBytes(n, 4));
  }

  /** Bytes that hold `WordBytes(w)` hold its first word, then the rest. */
  lemma WordBytesSplit(s: seq<byte>, pos: nat, w: seq<uint32>, endian: Endian)
    requires 0 < |w| && pos + 4 * |w| <= |s| && s[pos..pos + 4 * |w|] == WordBytes(w, endian)
    ensures s[pos..pos + 4] == ToBytes(w[0], endian)
    ensures pos + 4 + 4 * |w[1..]| == pos + 4 * |w|
    ensures s[pos + 4..pos + 4 + 4 * |w[1..]|] == WordBytes(w[1..], endian)
  {
    var head, tail := ToBytes(w[0], endian), WordBytes(w[1..], endian);
    assert 4 * |w| == 4 + 4 * |w[1..]|;
    assert WordBytes(w, endian) == head + tail;
    SliceSplit(s, pos, head, tail);
  }

  /** Words written by `WordBytes` read back, one `uint32` at a time, as themselves. */
  lemma {:induction false} WordsOfWordBytes(s: seq<byte>, pos: nat, w: seq<uint32>, endian: Endian)
    requires pos + 4 * |w| <= |s| && s[pos..pos + 4 * |w|] == WordBytes(w, endian)
    ensures Words(s, pos, |w|, endian) == w
    decreases |w|
  {
    if |w| > 0 {
      WordBytesSplit(s, pos, w, endian);
      WordsOfWordBytes(s, pos + 4, w[1..], endian);
      WordsOfWordBytesStep(s, pos, w, endian);
    }
  }

  lemma WordsOfWordBytesStep(s: seq<byte>, pos: nat, w: seq<uint32>, endian: Endian)
    requires 0 < |w| && pos + 4 * |w| <= |s| && s[pos..pos + 4] == ToBytes(w[0], endian)
    requires pos + 4 + 4 * |w[1..]| <= |s| && Words(s, pos + 4, |w[1..]|, endian) == w[1..]
    ensures Words(s, pos, |w|, endian) == w
  {
    FromToBytes(w[0], endian);
    ConsTail(w);
  }

  /** The header words of an encoding, read back in the byte order the marker selects. */
  lemma ParseEncodedHeader(t: Texture, endian: Endian, s: seq<byte>)
    requires |t.identifier| == 12
    requires if endian == Big then t.endianness == NATIVE_ENDIANNESS else t.endianness != SWAPPED_ENDIANNESS
    requires HeaderBytes(t, endian) <= s
    ensures HEADER_SIZE <= |s| && StreamEndian(s) == endian
    ensures HeaderOf(s, endian) == t.(metadata := [], levels := [])
  {
    var h := HeaderBytes(t, endian);
    assert s[..12] == h[..12] == t.identifier;
    assert s[12..16] == h[12..16] == ToBytes(t.endianness, endian);
    assert s[16..16 + 4 * 12] == h[16..] == WordBytes(HeaderWords(t), endian);
    WordsOfWordBytes(s, 16, HeaderWords(t), endian);
    if endian == Big {
      MarkerSwapped();
    } else {
      assert Marker(s) == t.endianness by { FromToBytes(t.endianness, Little); }
    }
  }

  /** The key/value block of an encoding holds exactly the metadata records. */
  lemma EncodedMetadataBlock(t: Texture, endian: Endian, s: seq<byte>)
    requires WellFormed(t, endian)
    requires EncodeMetadata(HeaderBytes(t, endian), t.metadata, endian) <= s
    ensures |HeaderBytes(t, endian)| == HEADER_SIZE
    ensures |EncodeMetadata(HeaderBytes(t, endian), t.metadata, endian)| == HEADER_SIZE + t.bytesOfKeyValueData
    ensures ParseMetadata(s[HEADER_SIZE..HEADER_SIZE + t.bytesOfKeyValueData], 0, endian) == MetaParse(t.metadata, [])
  {
    var h := HeaderBytes(t, endian);
    var afterMeta := EncodeMetadata(h, t.metadata, endian);
    assert |h| == HEADER_SIZE;
    EncodeMetadataPrefix(h, t.metadata, endian);
    EncodeMetadataShift(h, t.metadata, endian);
    var m := s[HEADER_SIZE..HEADER_SIZE + t.bytesOfKeyValueData];
    assert m == EncodeMetadata([], t.metadata, endian) by {
      assert m == afterMeta[HEADER_SIZE..];
    }
    ParseEncodedMetadata(m, [], t.metadata, endian);
  }

  /** A header with `t`'s metadata and levels put back is `t`. */
  lemma Restore(h: Texture, t: Texture)
    requires h == t.(metadata := [], levels := [])
    ensures h.(metadata := t.metadata) == t.(levels := [])
    ensures h.(metadata := t.metadata, levels := t.levels) == t
  {
  }

  /** A record that differs from `t` only in its metadata and levels expects the same levels as `t`. */
  lemma SameShape(h: Texture, t: Texture)
    requires h == t.(metadata := [], levels := [])
    ensures h.glTypeSize == t.glTypeSize && h.bytesOfKeyValueData == t.bytesOfKeyValueData
    ensures ImagesPerLevel(h) == ImagesPerLevel(t) && LevelCount(h) == LevelCount(t)
  {
  }

  /**
   * The pieces of `s` read back as those of `t`: the header in byte order
   * `endian`, then the key/value block and the levels that header announces,
   * which end exactly at the end of `s`.
   */
  predicate ReadsBackAs(s: seq<byte>, endian: Endian, t: Texture)
  {
    && HEADER_SIZE <= |s| && StreamEndian(s) == endian
    && HeaderOf(s, endian) == t.(metadata := [], levels := [])
    && HEADER_SIZE + t.bytesOfKeyValueData <= |s|
    && ParseMetadata(s[HEADER_SIZE..HEADER_SIZE + t.bytesOfKeyValueData], 0, endian) == MetaParse(t.metadata, [])
    && ParseLevels(s, HEADER_SIZE + t.bytesOfKeyValueData, endian, t.glTypeSize, ImagesPerLevel(t), LevelCount(t))
       == LevelParse(t.levels, |s|, [])
  }

  /** A stream whose pieces read back as those of `t` parses to `t`. */
  lemma ParseOfParts(s: seq<byte>, endian: Endian, t: Texture)
    requires ReadsBackAs(s, endian, t)
    ensures Parse(s) == Logged(Success(t), if endian == Big then [BigEndianInput] else [])
  {
    if endian == Big {
      ParseOfBigParts(s, endian, t);
    } else {
      ParseOfLittleParts(s, endian, t);
    }
  }

  /** `ParseOfParts` for a big-endian stream. */
  lemma ParseOfBigParts(s: seq<byte>, endian: Endian, t: Texture)
    requires endian == Big && ReadsBackAs(s, endian, t)
    ensures Parse(s) == Logged(Success(t), [BigEndianInput])
  {
    SameShape(HeaderOf(s, endian), t);
    Restore(HeaderOf(s, endian), t);
    EmptyAppend([BigEndianInput]);
  }

  /** `ParseOfParts` for a little-endian stream. */
  lemma ParseOfLittleParts(s: seq<byte>, endian: Endian, t: Texture)
    requires endian == Little && ReadsBackAs(s, endian, t)
    ensures Parse(s) == Logged(Success(t), [])
  {
    SameShape(HeaderOf(s, endian), t);
    Restore(HeaderOf(s, endian), t);
    var none: seq<Diagnostic> := [];
    EmptyAppend(none);
  }

  /** What the reader finds in each part of an encoding. */
  lemma EncodedParts(t: Texture, endian: Endian, afterMeta: seq<byte>, s: seq<byte>)
    requires WellFormed(t, endian)
    requires afterMeta == EncodeMetadata(HeaderBytes(t, endian), t.metadata, endian)
    requires s == EncodeLevels(afterMeta, t.levels, endian, t.glTypeSize)
    ensures ReadsBackAs(s, endian, t)
  {
    assert HeaderBytes(t, endian) <= afterMeta <= s by {
      EncodeLevelsPrefix(afterMeta, t.levels, endian, t.glTypeSize);
      EncodeMetadataPrefix(HeaderBytes(t, endian), t.metadata, endian);
    }
    assert HEADER_SIZE <= |s| && StreamEndian(s) == endian
        && HeaderOf(s, endian) == t.(metadata := [], levels := []) by {
      ParseEncodedHeader(t, endian, s);
    }
    assert |afterMeta| == HEADER_SIZE + t.bytesOfKeyValueData
        && ParseMetadata(s[HEADER_SIZE..HEADER_SIZE + t.bytesOfKeyValueData], 0, endian) == MetaParse(t.metadata, []) by {
      EncodedMetadataBlock(t, endian, s);
    }
    var pos := HEADER_SIZE + t.bytesOfKeyValueData;
    assert pos == |afterMeta| && LevelCount(t) == |t.levels|;
    ParseEncodedLevels(s, afterMeta, t.levels, endian, t.glTypeSize, ImagesPerLevel(t));
  }

  /**
   * Round trip: parsing the encoding of a well-formed record in byte order
   * `endian` gives the record back, and logs nothing but the byte-order
   * note of a big-endian stream.
   */
  lemma RoundTrip(t: Texture, endian: Endian)
    requires WellFormed(t, endian)
    ensures Parse(Encode(t, endian)).result == Success(t)
    ensures Parse(Encode(t, endian)).log == if endian == Big then [BigEndianInput] else []
  {
    var afterMeta := EncodeMetadata(HeaderBytes(t, endian), t.metadata, endian);
    EncodedParts(t, endian, afterMeta, Encode(t, endian));
    ParseOfParts(Encode(t, endian), endian, t);
  }

  /** Padding after a prefix that is already aligned depends only on what follows it. */
  lemma AlignedShift(out: seq<byte>, x: seq<byte>)
    requires |out| % 4 == 0
    ensures Aligned(out + x) == out + Aligned(x)
    ensures |Aligned(x)| % 4 == 0 && |out + Aligned(x)| % 4 == 0
  {
    PaddingShift(|out|, |x|);
    PaddingAligns(|x|, 4);
    PaddingAligns(|out + x|, 4);
  }

  /** The first record of `md` written after `out`, padded; the rest follows it. */
  lemma EncodeMetadataFirst(out: seq<byte>, md: seq<KeyValue>, endian: Endian)
    requires md != [] && RecordsFit(md)
    ensures RecordsFit(md[1..])
    ensures EncodeMetadata(out, md, endian)
         == EncodeMetadata(Aligned(out + (ToBytes(|Record(md[0])|, endian) + Record(md[0]))), md[1..], endian)
  {
    RecordsFitTail(md);
    assert out + ToBytes(|Record(md[0])|, endian) + Record(md[0])
        == out + (ToBytes(|Record(md[0])|, endian) + Record(md[0]));
  }

  /** Encoding the first record after an aligned prefix appends that record, padded. */
  lemma EncodeMetadataCons(out: seq<byte>, md: seq<KeyValue>, endian: Endian)
    requires md != [] && RecordsFit(md) && |out| % 4 == 0
    ensures RecordsFit(md[1..])
    ensures var b := Aligned(ToBytes(|Record(md[0])|, endian) + Record(md[0]));
      |b| % 4 == 0 && |out + b| % 4 == 0 && EncodeMetadata(out, md, endian) == EncodeMetadata(out + b, md[1..], endian)
  {
    EncodeMetadataFirst(out, md, endian);
    AlignedShift(out, ToBytes(|Record(md[0])|, endian) + Record(md[0]));
  }

  /** Encoding after an aligned prefix is that prefix followed by the encoding from nothing. */
  lemma {:induction false} EncodeMetadataShift(out: seq<byte>, md: seq<KeyValue>, endian: Endian)
    requires RecordsFit(md) && |out| % 4 == 0
    ensures EncodeMetadata(out, md, endian) == out + EncodeMetadata([], md, endian)
    decreases |md|
  {
    if md != [] {
      var b := Aligned(ToBytes(|Record(md[0])|, endian) + Record(md[0]));
      var rest := EncodeMetadata([], md[1..], endian);
      EncodeMetadataCons(out, md, endian);
      EncodeMetadataCons([], md, endian);
      EmptyAppend(b);
      EncodeMetadataShift(out + b, md[1..], endian);
      EncodeMetadataShift(b, md[1..], endian);
      AppendAssoc(out, b, rest);
    }
  }

  /**
   * A corollary of RoundTrip: a stream `toBinary` wrote for a well-formed
   * record, read and written back in the byte order it was read in, is the
   * same bytes.
   */
  lemma ByteExactRoundTrip(t: Texture, endian: Endian)
    requires WellFormed(t, endian)
    ensures var s := Encode(t, endian);
      Parse(s).result.Success? && RecordsFit(Parse(s).result.value.metadata)
      && Encode(Parse(s).result.value, endian) == s
  {
    RoundTrip(t, endian);
  }
}
