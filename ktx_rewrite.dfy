/**
 * The stream side of the round trip: a KTX file that `Ktx.fromBinary` reads
 * without a warning, and whose padding bytes are all zero, is what
 * `Ktx.toBinary` writes back for the record read, in the byte order it was
 * read in, byte for byte.
 */
module KtxRewrite {
  import opened Base
  import opened Binary
  import opened KtxLayout

  // ---------------------------------------------------------------------
  // Zero padding, where the reader skips it
  // ---------------------------------------------------------------------

  /** The padding after every record the metadata loop reads from `pos` of block `m` is zero bytes. */
  predicate RecordPaddingZero(m: seq<byte>, pos: nat, endian: Endian)
    decreases |m| - pos
  {
    pos < |m| ==>
      match RecordAt(m, pos, endian)
      case Failure(_) => true
      case Success(kv) =>
        && m[pos + 4 + |kv.value|..kv.next] == Zeros(kv.next - (pos + 4 + |kv.value|))
        && RecordPaddingZero(m, kv.next, endian)
  }

  /** The padding after every image a run of `count` images from `pos` reads is zero bytes. */
  predicate ImagePaddingZero(s: seq<byte>, pos: nat, endian: Endian, wordSize: nat, size: nat, count: nat)
    decreases count
  {
    count > 0 ==>
      match BytesAt(s, pos, size, endian, wordSize)
      case Failure(_) => true
      case Success(image) =>
        match AlignAt(s, image.next, 4)
        case Failure(_) => true
        case Success(next) =>
          && s[image.next..next] == Zeros(next - image.next)
          && ImagePaddingZero(s, next, endian, wordSize, size, count - 1)
  }

  /** The padding after every image the level loop reads from `pos` is zero bytes. */
  predicate LevelPaddingZero(s: seq<byte>, pos: nat, endian: Endian, wordSize: nat, faces: nat, count: nat)
    requires pos <= |s|
    decreases count
  {
    count > 0 ==>
      match Uint32At(s, pos, endian)
      case Failure(_) => true
      case Success(size) =>
        && ImagePaddingZero(s, size.next, endian, wordSize, size.value, faces)
        && match ReadImages(s, size.next, endian, wordSize, size.value, faces)
           case Failure(_) => true
           case Success(images) => LevelPaddingZero(s, images.next, endian, wordSize, faces, count - 1)
  }

  /** Every byte `fromBinary` skips as padding, in the key/value block and among the levels, is zero. */
  predicate ZeroPadded(s: seq<byte>)
  {
    HEADER_SIZE <= |s| ==>
      var endian := StreamEndian(s);
      var h := HeaderOf(s, endian);
      var kvEnd := HEADER_SIZE + h.bytesOfKeyValueData;
      kvEnd <= |s| ==>
        && RecordPaddingZero(s[HEADER_SIZE..kvEnd], 0, endian)
        && LevelPaddingZero(s, kvEnd, endian, h.glTypeSize, ImagesPerLevel(h), LevelCount(h))
  }

  // ---------------------------------------------------------------------
  // Each part read, written back
  // ---------------------------------------------------------------------

  /** Writing a run of words that starts with `x` writes `x` first. */
  lemma WordBytesCons(x: uint32, w: seq<uint32>, endian: Endian)
    ensures WordBytes([x] + w, endian) == ToBytes(x, endian) + WordBytes(w, endian)
  {
    assert ([x] + w)[1..] == w;
  }

  /** One step of `WordBytesOfWords`: the first word, then the run after it. */
  lemma WordBytesStep(s: seq<byte>, pos: nat, n: nat, endian: Endian)
    requires 0 < n && pos + 4 * n <= |s|
    requires WordBytes(Words(s, pos + 4, n - 1, endian), endian) == s[pos + 4..pos + 4 * n]
    ensures WordBytes(Words(s, pos, n, endian), endian) == s[pos..pos + 4 * n]
  {
    ToFromBytes(s[pos..pos + 4], endian);
    assert Words(s, pos, n, endian) == [FromBytes(s[pos..pos + 4], endian)] + Words(s, pos + 4, n - 1, endian);
    WordBytesCons(FromBytes(s[pos..pos + 4], endian), Words(s, pos + 4, n - 1, endian), endian);
    SliceJoin(s, pos, pos + 4, pos + 4 * n);
  }

  /** The header words, written back in the byte order they were read in, are the bytes they were read from. */
  lemma {:induction false} WordBytesOfWords(s: seq<byte>, pos: nat, n: nat, endian: Endian)
    requires pos + 4 * n <= |s|
    ensures WordBytes(Words(s, pos, n, endian), endian) == s[pos..pos + 4 * n]
    decreases n
  {
    if n > 0 {
      WordBytesOfWords(s, pos + 4, n - 1, endian);
      assert pos + 4 + 4 * (n - 1) == pos + 4 * n;
      WordBytesStep(s, pos, n, endian);
    }
  }

  /** The marker a reader normalises is written back, in the byte order it selected, as the bytes it was read from. */
  lemma MarkerBytes(s: seq<byte>)
    requires HEADER_SIZE <= |s|
    ensures ToBytes(HeaderOf(s, StreamEndian(s)).endianness, StreamEndian(s)) == s[12..16]
  {
    ToFromBytes(s[12..16], Little);
    if StreamEndian(s) == Big {
      MarkerSwapped();
      FromToBytes(NATIVE_ENDIANNESS, Big);
      ToFromBytes(ToBytes(NATIVE_ENDIANNESS, Big), Little);
    }
  }

  /** The header read from `s`, written back in the byte order it was read in, is the first 64 bytes of `s`. */
  lemma HeaderBytesOfStream(s: seq<byte>)
    requires HEADER_SIZE <= |s|
    ensures HeaderBytes(HeaderOf(s, StreamEndian(s)), StreamEndian(s)) == s[..HEADER_SIZE]
  {
    var endian := StreamEndian(s);
    var h := HeaderOf(s, endian);
    var w := Words(s, 16, 12, endian);
    assert HeaderWords(h) == w;
    WordBytesOfWords(s, 16, 12, endian);
    MarkerBytes(s);
    TakeJoin(s, 12, 16);
    TakeJoin(s, 16, HEADER_SIZE);
  }

  /** A record read at `pos` of block `m`, with zero padding, is the record `toBinary` writes there. */
  lemma RecordBytes(m: seq<byte>, pos: nat, endian: Endian, r: seq<byte>, next: nat)
    requires RecordAt(m, pos, endian) == Success(Step(r, next))
    requires m[pos + 4 + |r|..next] == Zeros(next - (pos + 4 + |r|))
    ensures |r| < 0x1_0000_0000
    ensures Aligned(m[..pos] + ToBytes(|r|, endian) + r) == m[..next]
  {
    var size := FromBytes(m[pos..pos + 4], endian);
    assert |r| == size as int && r == m[pos + 4..pos + 4 + |r|];
    assert next == pos + 4 + |r| + Padding(pos + 4 + |r|, 4);
    ToFromBytes(m[pos..pos + 4], endian);
    TakeJoin(m, pos, pos + 4);
    TakeJoin(m, pos + 4, pos + 4 + |r|);
    TakeJoin(m, pos + 4 + |r|, next);
  }

  /**
   * A key/value block that the metadata loop reads from `pos` to its end
   * without a warning, with zero padding, is the bytes before `pos` followed
   * by the records `toBinary` writes for the entries read.
   */
  lemma {:induction false} EncodeParsedMetadata(m: seq<byte>, pos: nat, endian: Endian)
    requires pos <= |m|
    requires ParseMetadata(m, pos, endian).log == [] && RecordPaddingZero(m, pos, endian)
    ensures RecordsFit(ParseMetadata(m, pos, endian).entries)
    ensures EncodeMetadata(m[..pos], ParseMetadata(m, pos, endian).entries, endian) == m
    decreases |m| - pos
  {
    if pos == |m| {
      TakeAll(m);
    } else {
      assert RecordAt(m, pos, endian).Success?;
      var r, next := RecordAt(m, pos, endian).value.value, RecordAt(m, pos, endian).value.next;
      assert 0 in r;
      ParseMetadataStep(m, pos, r, next, endian);
      var rest := ParseMetadata(m, next, endian);
      EncodeParsedMetadata(m, next, endian);
      RecordBytes(m, pos, endian, r, next);
      var e := SplitEntry(r);
      var md := [e] + rest.entries;
      assert Record(e) == r;
      assert RecordsFit(md) by {
        forall i | 0 <= i < |md| ensures |Record(md[i])| < 0x1_0000_0000 {
          if i > 0 {
            assert md[i] == rest.entries[i - 1];
          }
        }
      }
      assert md[0] == e && md[1..] == rest.entries;
    }
  }

  /** An image read at `pos`, with zero padding, is the image `toBinary` writes there. */
  lemma ImageBytes(s: seq<byte>, pos: nat, endian: Endian, wordSize: nat, size: nat, image: seq<byte>, next: nat)
    requires BytesAt(s, pos, size, endian, wordSize) == Success(Step(image, pos + size))
    requires AlignAt(s, pos + size, 4) == Success(next)
    requires s[pos + size..next] == Zeros(next - (pos + size))
    ensures Aligned(s[..pos] + Transfer(image, endian, wordSize)) == s[..next]
  {
    TransferTwice(s[pos..pos + size], endian, wordSize);
    TakeJoin(s, pos, pos + size);
    TakeJoin(s, pos + size, next);
  }

  /** A run of images read from `pos`, with zero padding, is what `toBinary` writes for them. */
  lemma {:induction false} EncodeReadImages(s: seq<byte>, pos: nat, endian: Endian, wordSize: nat, size: nat, count: nat)
    requires pos <= |s|
    requires ReadImages(s, pos, endian, wordSize, size, count).Success?
    requires ImagePaddingZero(s, pos, endian, wordSize, size, count)
    ensures var st := ReadImages(s, pos, endian, wordSize, size, count).value;
      EncodeImages(s[..pos], st.value, endian, wordSize) == s[..st.next]
    decreases count
  {
    if count > 0 {
      assert BytesAt(s, pos, size, endian, wordSize).Success?;
      var image := BytesAt(s, pos, size, endian, wordSize).value.value;
      assert AlignAt(s, pos + size, 4).Success?;
      var next := AlignAt(s, pos + size, 4).value;
      assert ReadImages(s, next, endian, wordSize, size, count - 1).Success?;
      var rest := ReadImages(s, next, endian, wordSize, size, count - 1).value;
      EncodeReadImages(s, next, endian, wordSize, size, count - 1);
      ImageBytes(s, pos, endian, wordSize, size, image, next);
      var images := [image] + rest.value;
      assert ReadImages(s, pos, endian, wordSize, size, count).value == Step(images, rest.next);
      assert images[0] == image && images[1..] == rest.value;
    }
  }

  /** A level loop that logs nothing reads a first level whole: its image size, then its images. */
  lemma CleanLevelStep(s: seq<byte>, pos: nat, endian: Endian, wordSize: nat, faces: nat, count: nat)
    requires pos <= |s| && 0 < count
    requires ParseLevels(s, pos, endian, wordSize, faces, count).log == []
    requires LevelPaddingZero(s, pos, endian, wordSize, faces, count)
    ensures pos + 4 <= |s|
    ensures var size := FromBytes(s[pos..pos + 4], endian);
      && ReadImages(s, pos + 4, endian, wordSize, size as nat, faces).Success?
      && ImagePaddingZero(s, pos + 4, endian, wordSize, size as nat, faces)
      && var images := ReadImages(s, pos + 4, endian, wordSize, size as nat, faces).value;
         var rest := ParseLevels(s, images.next, endian, wordSize, faces, count - 1);
         && LevelPaddingZero(s, images.next, endian, wordSize, faces, count - 1)
         && ParseLevels(s, pos, endian, wordSize, faces, count)
            == LevelParse([Level(size, images.value)] + rest.levels, rest.next, rest.log)
  {
    assert Uint32At(s, pos, endian).Success?;
  }

  /**
   * Levels that the level loop reads from `pos` without a warning, with zero
   * padding, are all the levels asked for, and they are the bytes before
   * `pos` followed by what `toBinary` writes for those levels.
   */
  lemma {:induction false} EncodeParsedLevels(s: seq<byte>, pos: nat, endian: Endian, wordSize: nat, faces: nat, count: nat)
    requires pos <= |s|
    requires ParseLevels(s, pos, endian, wordSize, faces, count).log == []
    requires LevelPaddingZero(s, pos, endian, wordSize, faces, count)
    ensures |ParseLevels(s, pos, endian, wordSize, faces, count).levels| == count
    ensures var lv := ParseLevels(s, pos, endian, wordSize, faces, count);
      EncodeLevels(s[..pos], lv.levels, endian, wordSize) == s[..lv.next]
    decreases count
  {
    if count > 0 {
      CleanLevelStep(s, pos, endian, wordSize, faces, count);
      var size := FromBytes(s[pos..pos + 4], endian);
      var images := ReadImages(s, pos + 4, endian, wordSize, size as nat, faces).value;
      var rest := ParseLevels(s, images.next, endian, wordSize, faces, count - 1);
      EncodeParsedLevels(s, images.next, endian, wordSize, faces, count - 1);
      EncodeReadImages(s, pos + 4, endian, wordSize, size as nat, faces);
      ToFromBytes(s[pos..pos + 4], endian);
      TakeJoin(s, pos, pos + 4);
      var levels := [Level(size, images.value)] + rest.levels;
      assert levels[0] == Level(size, images.value) && levels[1..] == rest.levels;
    }
  }

  /** Levels as the reader builds them, image count and image size stated level by level. */
  lemma ShapedAll(levels: seq<Level>, faces: nat)
    requires Shaped(levels, faces)
    ensures forall i :: 0 <= i < |levels| ==> |levels[i].images| == faces
    ensures forall i, j :: 0 <= i < |levels| && 0 <= j < |levels[i].images| ==>
      |levels[i].images[j]| == levels[i].imageSize
  {
    forall i | 0 <= i < |levels|
      ensures |levels[i].images| == faces
    {
      ShapedIndex(levels, faces, i);
    }
    forall i, j | 0 <= i < |levels| && 0 <= j < |levels[i].images|
      ensures |levels[i].images[j]| == levels[i].imageSize
    {
      ShapedIndex(levels, faces, i);
      SizedIndex(levels[i].images, levels[i].imageSize, j);
    }
  }

  // ---------------------------------------------------------------------
  // The whole file
  // ---------------------------------------------------------------------

  /** A clean read: the reading log holds nothing but the byte-order note. */
  lemma CleanLog(s: seq<byte>, endian: Endian, meta: MetaParse, lv: LevelParse)
    requires ReadLog(endian, meta, lv, |s|) == EndianNote(endian)
    ensures meta.log == [] && lv.log == [] && lv.next >= |s|
  {
    assert |ReadLog(endian, meta, lv, |s|)|
        == |EndianNote(endian)| + |meta.log| + |lv.log| + (if lv.next < |s| then 1 else 0);
  }

  /** A record put together from a header and parts with the properties a clean read gives them is well formed. */
  lemma WellFormedOfParts(h: Texture, md: seq<KeyValue>, levels: seq<Level>, endian: Endian)
    requires |h.identifier| == 12
    requires if endian == Big then h.endianness == NATIVE_ENDIANNESS else h.endianness != SWAPPED_ENDIANNESS
    requires RecordsFit(md) && (forall e <- md :: 0 !in e.key)
    requires h.bytesOfKeyValueData as int == MetadataSize(md)
    requires |levels| == LevelCount(h) && Shaped(levels, ImagesPerLevel(h))
    ensures WellFormed(h.(metadata := md, levels := levels), endian)
  {
    var t := h.(metadata := md, levels := levels);
    ShapedAll(levels, ImagesPerLevel(h));
    assert ImagesPerLevel(t) == ImagesPerLevel(h) && LevelCount(t) == LevelCount(h);
    forall i | 0 <= i < |md| ensures 0 !in md[i].key {
      assert md[i] in md;
    }
  }

  /** The header a reader takes from `s` has a 12-byte identifier and the marker of the byte order it read in. */
  lemma HeaderOfEndian(s: seq<byte>)
    requires HEADER_SIZE <= |s|
    ensures var h := HeaderOf(s, StreamEndian(s));
      && |h.identifier| == 12
      && if StreamEndian(s) == Big then h.endianness == NATIVE_ENDIANNESS else h.endianness != SWAPPED_ENDIANNESS
  {
  }

  /** Where the key/value block of `s` ends. */
  function KvEnd(s: seq<byte>): nat
    requires HEADER_SIZE <= |s|
  {
    HEADER_SIZE + HeaderOf(s, StreamEndian(s)).bytesOfKeyValueData
  }

  /** What the metadata loop reads from the key/value block of `s`. */
  function MetaRead(s: seq<byte>): MetaParse
    requires HEADER_SIZE <= |s| && KvEnd(s) <= |s|
  {
    ParseMetadata(s[HEADER_SIZE..KvEnd(s)], 0, StreamEndian(s))
  }

  /** What the level loop reads from `s` after the key/value block. */
  function LevelsRead(s: seq<byte>): LevelParse
    requires HEADER_SIZE <= |s| && KvEnd(s) <= |s|
  {
    var h := HeaderOf(s, StreamEndian(s));
    ParseLevels(s, KvEnd(s), StreamEndian(s), h.glTypeSize, ImagesPerLevel(h), LevelCount(h))
  }

  /** A clean read of `s`: a whole header and key/value block, and both loops done without a warning. */
  lemma CleanRead(s: seq<byte>)
    requires Parse(s).result.Success? && Parse(s).log == EndianNote(StreamEndian(s))
    ensures HEADER_SIZE <= |s| && KvEnd(s) <= |s|
    ensures MetaRead(s).log == [] && LevelsRead(s).log == [] && LevelsRead(s).next >= |s|
    ensures Parse(s).result.value
         == HeaderOf(s, StreamEndian(s)).(metadata := MetaRead(s).entries, levels := LevelsRead(s).levels)
  {
    ParseOfReads(s, StreamEndian(s), HeaderOf(s, StreamEndian(s)), MetaRead(s), LevelsRead(s));
    CleanLog(s, StreamEndian(s), MetaRead(s), LevelsRead(s));
  }

  /** The padding of a zero-padded stream's key/value block and of its levels is zero. */
  lemma PaddingParts(s: seq<byte>)
    requires ZeroPadded(s) && HEADER_SIZE <= |s| && KvEnd(s) <= |s|
    ensures RecordPaddingZero(s[HEADER_SIZE..KvEnd(s)], 0, StreamEndian(s))
    ensures LevelPaddingZero(s, KvEnd(s), StreamEndian(s), HeaderOf(s, StreamEndian(s)).glTypeSize,
      ImagesPerLevel(HeaderOf(s, StreamEndian(s))), LevelCount(HeaderOf(s, StreamEndian(s))))
  {
  }

  /** `toBinary`'s output put together from its header, key/value block and levels. */
  lemma EncodeOfParts(s: seq<byte>, t: Texture, endian: Endian, kvEnd: nat)
    requires RecordsFit(t.metadata) && HEADER_SIZE <= kvEnd <= |s|
    requires HeaderBytes(t, endian) == s[..HEADER_SIZE]
    requires EncodeMetadata([], t.metadata, endian) == s[HEADER_SIZE..kvEnd]
    requires EncodeLevels(s[..kvEnd], t.levels, endian, t.glTypeSize) == s
    ensures Encode(t, endian) == s
  {
    EncodeMetadataShift(s[..HEADER_SIZE], t.metadata, endian);
    TakeJoin(s, HEADER_SIZE, kvEnd);
  }

  /** A key/value block read cleanly, with zero padding: its entries are well formed and written back as the block. */
  lemma MetadataPart(m: seq<byte>, endian: Endian, meta: MetaParse)
    requires meta == ParseMetadata(m, 0, endian)
    requires meta.log == [] && RecordPaddingZero(m, 0, endian)
    ensures RecordsFit(meta.entries) && (forall i :: 0 <= i < |meta.entries| ==> 0 !in meta.entries[i].key)
    ensures |m| == MetadataSize(meta.entries) && EncodeMetadata([], meta.entries, endian) == m
  {
    EncodeParsedMetadata(m, 0, endian);
    assert m[..0] == [];
    EncodeMetadataPrefix([], meta.entries, endian);
    ParseMetadataSound(m, 0, endian);
    forall i | 0 <= i < |meta.entries| ensures 0 !in meta.entries[i].key {
      assert meta.entries[i] in meta.entries;
    }
  }

  /** The levels read cleanly to the end of the stream, with zero padding: all of them, shaped, and written back as the rest of the stream. */
  lemma LevelsPart(s: seq<byte>, pos: nat, endian: Endian, wordSize: nat, faces: nat, count: nat, lv: LevelParse)
    requires pos <= |s| && lv == ParseLevels(s, pos, endian, wordSize, faces, count)
    requires lv.log == [] && lv.next >= |s| && LevelPaddingZero(s, pos, endian, wordSize, faces, count)
    ensures |lv.levels| == count && Shaped(lv.levels, faces)
    ensures EncodeLevels(s[..pos], lv.levels, endian, wordSize) == s
  {
    EncodeParsedLevels(s, pos, endian, wordSize, faces, count);
    ParseLevelsShaped(s, pos, endian, wordSize, faces, count);
    TakeAll(s);
  }

  /**
   * The header read from `s`, with a key/value block and levels that have
   * what a clean read gives them, makes a well-formed record that `toBinary`
   * writes back as `s`.
   */
  lemma WholeOfParts(s: seq<byte>, endian: Endian, h: Texture, kvEnd: nat, md: seq<KeyValue>, levels: seq<Level>)
    requires HEADER_SIZE <= |s| && endian == StreamEndian(s) && h == HeaderOf(s, endian)
    requires kvEnd == HEADER_SIZE + h.bytesOfKeyValueData && kvEnd <= |s|
    requires RecordsFit(md) && (forall i :: 0 <= i < |md| ==> 0 !in md[i].key)
    requires kvEnd - HEADER_SIZE == MetadataSize(md) && EncodeMetadata([], md, endian) == s[HEADER_SIZE..kvEnd]
    requires |levels| == LevelCount(h) && Shaped(levels, ImagesPerLevel(h))
    requires EncodeLevels(s[..kvEnd], levels, endian, h.glTypeSize) == s
    ensures var t := h.(metadata := md, levels := levels);
      WellFormed(t, endian) && Encode(t, endian) == s
  {
    var t := h.(metadata := md, levels := levels);
    HeaderOfEndian(s);
    WellFormedOfParts(h, md, levels, endian);
    HeaderBytesOfStream(s);
    assert HeaderBytes(t, endian) == HeaderBytes(h, endian);
    EncodeOfParts(s, t, endian, kvEnd);
  }

  /** The key/value block and the levels of a clean read of a zero-padded stream, each written back, are the bytes they were read from. */
  lemma CleanParts(s: seq<byte>, kvEnd: nat, endian: Endian, wordSize: nat, faces: nat, count: nat, meta: MetaParse, lv: LevelParse)
    requires HEADER_SIZE <= kvEnd <= |s|
    requires meta == ParseMetadata(s[HEADER_SIZE..kvEnd], 0, endian) && meta.log == []
    requires RecordPaddingZero(s[HEADER_SIZE..kvEnd], 0, endian)
    requires lv == ParseLevels(s, kvEnd, endian, wordSize, faces, count) && lv.log == [] && lv.next >= |s|
    requires LevelPaddingZero(s, kvEnd, endian, wordSize, faces, count)
    ensures RecordsFit(meta.entries) && (forall i :: 0 <= i < |meta.entries| ==> 0 !in meta.entries[i].key)
    ensures kvEnd - HEADER_SIZE == MetadataSize(meta.entries)
    ensures EncodeMetadata([], meta.entries, endian) == s[HEADER_SIZE..kvEnd]
    ensures |lv.levels| == count && Shaped(lv.levels, faces)
    ensures EncodeLevels(s[..kvEnd], lv.levels, endian, wordSize) == s
  {
    LevelsPart(s, kvEnd, endian, wordSize, faces, count, lv);
    MetadataPart(s[HEADER_SIZE..kvEnd], endian, meta);
  }

  /**
   * Reading then writing: a file that `fromBinary` reads without a warning
   * beyond the byte-order note, and whose padding bytes are zero, is written
   * back by `toBinary`, in the byte order it was read in, as the very same
   * bytes.
   */
  lemma ParseThenEncode(s: seq<byte>)
    requires Parse(s).result.Success? && ZeroPadded(s)
    requires Parse(s).log == EndianNote(StreamEndian(s))
    ensures WellFormed(Parse(s).result.value, StreamEndian(s))
    ensures Encode(Parse(s).result.value, StreamEndian(s)) == s
  {
    CleanRead(s);
    PaddingParts(s);
    CleanParts(s, KvEnd(s), StreamEndian(s), HeaderOf(s, StreamEndian(s)).glTypeSize,
      ImagesPerLevel(HeaderOf(s, StreamEndian(s))), LevelCount(HeaderOf(s, StreamEndian(s))), MetaRead(s), LevelsRead(s));
    WholeOfParts(s, StreamEndian(s), HeaderOf(s, StreamEndian(s)), KvEnd(s), MetaRead(s).entries, LevelsRead(s).levels);
  }
}
