/**
 * The `Ktx` object of ktxjuggle/ktx.py: sixteen fields that `fromBinary`
 * fills from a byte stream and `toBinary` writes back, and `validate`,
 * which reads them and logs what it finds. Each method is proved against
 * the function that specifies it: Parse and Encode (KtxLayout) and Check
 * (KtxCheck).
 */
module KtxFile {
  import opened Base
  import opened Binary
  import opened KtxLayout
  import opened KtxCheck

  class Ktx {
    var identifier: seq<byte>
    var endianness: uint32
    var glType: uint32
    var glTypeSize: uint32
    var glFormat: uint32
    var glInternalFormat: uint32
    var glBaseInternalFormat: uint32
    var pixelWidth: uint32
    var pixelHeight: uint32
    var pixelDepth: uint32
    var numberOfArrayElements: uint32
    var numberOfFaces: uint32
    var numberOfMipmapLevels: uint32
    var bytesOfKeyValueData: uint32
    var metadata: seq<KeyValue>
    var levels: seq<Level>

    /** The fields as one value. */
    function Value(): Texture
      reads this
    {
      Texture(identifier, endianness, glType, glTypeSize, glFormat, glInternalFormat, glBaseInternalFormat,
              pixelWidth, pixelHeight, pixelDepth, numberOfArrayElements, numberOfFaces, numberOfMipmapLevels,
              bytesOfKeyValueData, metadata, levels)
    }

    /** `Ktx()`: every field unset, here empty or zero. */
    constructor ()
      ensures Value() == Texture([], 0, 0, 0, 0, 0, 0, 0, 0, 0, 0, 0, 0, 0, [], [])
    {
      identifier, endianness := [], 0;
      glType, glTypeSize, glFormat, glInternalFormat, glBaseInternalFormat := 0, 0, 0, 0, 0;
      pixelWidth, pixelHeight, pixelDepth := 0, 0, 0;
      numberOfArrayElements, numberOfFaces, numberOfMipmapLevels, bytesOfKeyValueData := 0, 0, 0, 0;
      metadata, levels := [], [];
    }

    // -------------------------------------------------------------------
    // validate
    // -------------------------------------------------------------------

    /** The metadata loop of `validate`, with `prevKeys` holding the keys already seen. */
    method ValidateMetadata() returns (r: Result<(), Exception>, notes: seq<Diagnostic>)
      ensures Logged(r, notes) == MetadataNotes(metadata, 0)
    {
      notes := [];
      var prevKeys: set<seq<byte>> := {};
      var i := 0;
      while i < |metadata|
        invariant i <= |metadata| && prevKeys == KeysBetween(metadata, 0, i)
        invariant MetadataNotes(metadata, 0)
               == Logged(MetadataNotes(metadata, i).result, notes + MetadataNotes(metadata, i).log)
      {
        var kv := metadata[i];
        var entry: seq<Diagnostic> := [];
        if |kv.key| == 0 {
          entry := entry + [EmptyKey(i)];
        }
        if |kv.value| == 0 {
          entry := entry + [EmptyValue(i)];
        }
        if kv.key in prevKeys {
          entry := entry + [DuplicateKey(i)];
        }
        if HasReservedPrefix(kv.key) && kv.key != ORIENTATION_KEY {
          // formatting the message decodes the key
          if !IsUtf8(kv.key) {
            assert entry == EntryNotes(kv, i, prevKeys);
            r := Failure(UnicodeDecodeError);
            notes := notes + entry;
            return;
          }
          entry := entry + [UnknownReservedKey(i)];
        }
        assert entry == EntryNotes(kv, i, prevKeys);
        AppendAssoc(notes, entry, MetadataNotes(metadata, i + 1).log);
        notes := notes + entry;
        assert KeysBetween(metadata, 0, i + 1) == prevKeys + {kv.key};
        prevKeys := prevKeys + {kv.key};
        i := i + 1;
      }
      r := Success(());
      EmptyAppend(notes);
    }

    /** The image loop of `validate` for level `i`. */
    method ValidateImages(i: nat) returns (notes: seq<Diagnostic>)
      requires i < |levels|
      ensures notes == ImageNotes(glTypeSize, i, levels[i].imageSize, levels[i].images, 0)
    {
      var l := levels[i];
      notes := [];
      var j := 0;
      while j < |l.images|
        invariant j <= |l.images|
        invariant ImageNotes(glTypeSize, i, l.imageSize, l.images, 0)
               == notes + ImageNotes(glTypeSize, i, l.imageSize, l.images, j)
      {
        var image := l.images[j];
        var found: seq<Diagnostic> := [];
        if l.imageSize as int != |image| {
          found := found + [ImageSizeMismatch(i, j)];
        }
        if glTypeSize != 0 && |image| % glTypeSize as int != 0 {
          found := found + [NotTypeSizeMultiple(i, j)];
        }
        ghost var rest := ImageNotes(glTypeSize, i, l.imageSize, l.images, j + 1);
        assert ImageNotes(glTypeSize, i, l.imageSize, l.images, j) == found + rest;
        AppendAssoc(notes, found, rest);
        notes := notes + found;
        j := j + 1;
      }
      EmptyAppend(notes);
    }

    /** The level loop of `validate`, with `prevImageSize` starting above every 32-bit size. */
    method ValidateLevels() returns (notes: seq<Diagnostic>)
      ensures notes == LevelNotes(Value(), 0, FIRST_PREVIOUS_IMAGE_SIZE)
    {
      ghost var t := Value();
      notes := [];
      var prevImageSize: int := 0xffff_ffff;
      var i := 0;
      while i < |levels|
        invariant i <= |levels|
        invariant LevelNotes(t, 0, FIRST_PREVIOUS_IMAGE_SIZE) == notes + LevelNotes(t, i, prevImageSize)
      {
        var l := levels[i];
        var found: seq<Diagnostic> := [];
        if numberOfFaces as int != |l.images| {
          found := found + [FaceCountMismatch(i)];
        }
        if l.imageSize as int > prevImageSize {
          found := found + [ImageSizeIncrease(i)];
        }
        var images := ValidateImages(i);
        found := found + images;
        assert found == OneLevelNotes(t, i, prevImageSize);
        AppendAssoc(notes, found, LevelNotes(t, i + 1, l.imageSize as int));
        notes := notes + found;
        prevImageSize := l.imageSize as int;
        i := i + 1;
      }
      EmptyAppend(notes);
    }

    /**
     * `validate()`: logs what the fields break and changes nothing; it
     * raises UnicodeDecodeError exactly as Check says.
     */
    method Validate() returns (r: Result<(), Exception>, log: seq<Diagnostic>)
      ensures Logged(r, log) == Check(Value())
    {
      var header := HeaderNotes(Value());
      var metaNotes;
      r, metaNotes := ValidateMetadata();
      log := header + metaNotes;
      if r.Success? {
        var levelNotes := ValidateLevels();
        log := log + levelNotes;
      } else {
        EmptyAppend(log);
      }
    }

    // -------------------------------------------------------------------
    // toBinary
    // -------------------------------------------------------------------

    /** The identifier and the thirteen header words, written to an empty stream. */
    method WriteHeader(writer: Writer)
      requires writer.out == []
      modifies writer`out
      ensures writer.out == HeaderBytes(Value(), writer.endian)
    {
      var endian := writer.endian;
      var t := Value();
      writer.Bytes(t.identifier);
      EmptyAppend(t.identifier);
      writer.Uint32(t.endianness);
      ghost var head := writer.out;
      ghost var words := HeaderWords(t);
      EmptyAppend(head);
      writer.Uint32(t.glType);
      WordWritten(head, words, 0, endian);
      writer.Uint32(t.glTypeSize);
      WordWritten(head, words, 1, endian);
      writer.Uint32(t.glFormat);
      WordWritten(head, words, 2, endian);
      writer.Uint32(t.glInternalFormat);
      WordWritten(head, words, 3, endian);
      writer.Uint32(t.glBaseInternalFormat);
      WordWritten(head, words, 4, endian);
      writer.Uint32(t.pixelWidth);
      WordWritten(head, words, 5, endian);
      writer.Uint32(t.pixelHeight);
      WordWritten(head, words, 6, endian);
      writer.Uint32(t.pixelDepth);
      WordWritten(head, words, 7, endian);
      writer.Uint32(t.numberOfArrayElements);
      WordWritten(head, words, 8, endian);
      writer.Uint32(t.numberOfFaces);
      WordWritten(head, words, 9, endian);
      writer.Uint32(t.numberOfMipmapLevels);
      WordWritten(head, words, 10, endian);
      writer.Uint32(t.bytesOfKeyValueData);
      WordWritten(head, words, 11, endian);
      TakeAll(words);
    }

    /** The metadata loop of `toBinary`: each entry as a length, `key + NUL + value`, and padding. */
    method WriteMetadata(writer: Writer)
      requires RecordsFit(metadata)
      modifies writer`out
      ensures writer.out == EncodeMetadata(old(writer.out), metadata, writer.endian)
    {
      var i := 0;
      while i < |metadata|
        invariant i <= |metadata| && RecordsFit(metadata[i..])
        invariant EncodeMetadata(writer.out, metadata[i..], writer.endian)
               == EncodeMetadata(old(writer.out), metadata, writer.endian)
      {
        EncodeMetadataStep(writer.out, metadata, i, writer.endian);
        var keyAndValue := metadata[i].key + [0] + metadata[i].value;
        writer.Uint32(|keyAndValue| as uint32);
        writer.Bytes(keyAndValue);
        writer.Align(4);
        i := i + 1;
      }
      assert metadata[i..] == [];
    }

    /** The level loop of `toBinary`: each level's image size, then its images, each padded. */
    method WriteLevels(writer: Writer)
      modifies writer`out
      ensures writer.out == EncodeLevels(old(writer.out), levels, writer.endian, glTypeSize)
    {
      var i := 0;
      while i < |levels|
        invariant i <= |levels|
        invariant EncodeLevels(writer.out, levels[i..], writer.endian, glTypeSize)
               == EncodeLevels(old(writer.out), levels, writer.endian, glTypeSize)
      {
        EncodeLevelsStep(writer.out, levels, i, writer.endian, glTypeSize);
        var images := levels[i].images;
        writer.Uint32(levels[i].imageSize);
        ghost var start := writer.out;
        var j := 0;
        while j < |images|
          invariant j <= |images|
          invariant EncodeImages(writer.out, images[j..], writer.endian, glTypeSize)
                 == EncodeImages(start, images, writer.endian, glTypeSize)
        {
          EncodeImagesStep(writer.out, images, j, writer.endian, glTypeSize);
          writer.Bytes(images[j], glTypeSize);
          writer.Align(4);
          j := j + 1;
        }
        assert images[j..] == [];
        i := i + 1;
      }
      assert levels[i..] == [];
    }

    /**
     * `toBinary(stream, endian)`: everything it writes, in byte order
     * `endian`. Every record length must fit the 32-bit word before it.
     */
    method ToBinary(endian: Endian) returns (out: seq<byte>)
      requires RecordsFit(metadata)
      ensures out == Encode(Value(), endian)
    {
      var writer := new Writer();
      writer.endian := endian;
      WriteHeader(writer);
      WriteMetadata(writer);
      WriteLevels(writer);
      out := writer.out;
    }

    // -------------------------------------------------------------------
    // fromBinary
    // -------------------------------------------------------------------

    /**
     * The twelve header words after the marker, from `glType` to
     * `bytesOfKeyValueData`, read one after the other in the reader's byte
     * order; the first one past the end raises EOFError.
     */
    static method ReadHeaderWords(reader: Reader) returns (r: Result<seq<uint32>, Exception>)
      requires reader.Valid() && reader.pos == 16
      modifies reader`pos
      ensures reader.Valid()
      ensures |reader.data| < HEADER_SIZE ==> r == Failure(EOFError)
      ensures HEADER_SIZE <= |reader.data| ==>
        r == Success(Words(reader.data, 16, 12, reader.endian)) && reader.pos == HEADER_SIZE
    {
      var w: seq<uint32> := [];
      for k := 0 to 12
        invariant reader.Valid() && reader.pos == 16 + 4 * k
        invariant w == Words(reader.data, 16, k, reader.endian)
      {
        var x :- reader.Uint32();
        WordsSnoc(reader.data, 16, k, reader.endian);
        w := w + [x];
      }
      r := Success(w);
    }

    /**
     * The header part of `fromBinary`: the identifier, the marker (a
     * swapped one switches the reader to the big byte order and is stored
     * normalised), then the twelve header words. A stream shorter than the
     * header raises EOFError.
     */
    static method ReadHeader(reader: Reader) returns (r: Result<Texture, Exception>, notes: seq<Diagnostic>)
      requires reader.Valid() && reader.pos == 0 && reader.endian == Little
      modifies reader`pos, reader`endian
      ensures reader.Valid()
      ensures |reader.data| < 16 ==> r == Failure(EOFError) && notes == []
      ensures 16 <= |reader.data| ==>
        && reader.endian == StreamEndian(reader.data)
        && notes == EndianNote(reader.endian)
      ensures 16 <= |reader.data| < HEADER_SIZE ==> r == Failure(EOFError)
      ensures HEADER_SIZE <= |reader.data| ==>
        r == Success(HeaderOf(reader.data, reader.endian)) && reader.pos == HEADER_SIZE
    {
      notes := [];
      var id :- reader.Bytes(12);
      var marker :- reader.Uint32();
      assert marker == Marker(reader.data);
      if marker == SWAPPED_ENDIANNESS {
        notes := [BigEndianInput];
        reader.endian := Big;
        marker := NATIVE_ENDIANNESS;
      }
      var w :- ReadHeaderWords(reader);
      HeaderOfParts(reader.data, reader.endian, id, marker, w);
      r := Success(Texture(id, marker, w[0], w[1], w[2], w[3], w[4], w[5], w[6], w[7], w[8], w[9], w[10], w[11], [], []));
    }

    /**
     * The key/value part of `fromBinary`: the block of `size` bytes is cut
     * from the stream (EOFError if it is short) and read by a reader of its
     * own, in the same byte order, record by record while bytes remain. A
     * record whose length, bytes or padding overrun the block ends the loop
     * with a warning; one without a NUL is dropped with a warning.
     */
    static method ReadMetadata(reader: Reader, size: uint32) returns (r: Result<MetaParse, Exception>)
      requires reader.Valid()
      modifies reader`pos
      ensures reader.Valid()
      ensures old(reader.pos) + size > |reader.data| ==> r == Failure(EOFError)
      ensures old(reader.pos) + size <= |reader.data| ==>
        && reader.pos == old(reader.pos) + size
        && r == Success(ParseMetadata(reader.data[old(reader.pos)..old(reader.pos) + size], 0, reader.endian))
    {
      var metaBytes :- reader.Bytes(size as nat);
      assert metaBytes == reader.data[old(reader.pos)..old(reader.pos) + size];
      var metaReader := new Reader(metaBytes);
      metaReader.endian := reader.endian;
      ghost var m := metaBytes;
      ghost var endian := reader.endian;
      var entries: seq<KeyValue> := [];
      var log: seq<Diagnostic> := [];
      EmptyAppend(ParseMetadata(m, 0, endian).entries);
      EmptyAppend(ParseMetadata(m, 0, endian).log);
      var more := metaReader.HasMore();
      while more
        invariant reader.Valid() && reader.pos == old(reader.pos) + size as nat
        invariant metaReader.Valid() && metaReader.data == m && metaReader.endian == endian
        invariant more <==> metaReader.pos < |m|
        invariant ParseMetadata(m, 0, endian) == MetaParse(
          entries + ParseMetadata(m, metaReader.pos, endian).entries,
          log + ParseMetadata(m, metaReader.pos, endian).log)
        decreases |m| - metaReader.pos
      {
        ghost var pos := metaReader.pos;
        ghost var rest := ParseMetadata(m, pos, endian);
        var keyAndValueByteSize := metaReader.Uint32();
        var keyAndValue: Result<seq<byte>, Exception> := Failure(EOFError);
        var padded: Result<(), Exception> := Failure(EOFError);
        if keyAndValueByteSize.Success? {
          keyAndValue := metaReader.Bytes(keyAndValueByteSize.value as nat);
          if keyAndValue.Success? {
            padded := metaReader.Align(4);
          }
        }
        if padded.Failure? {
          assert RecordAt(m, pos, endian).Failure?;
          assert rest == MetaParse([], [MetadataOverrun]);
          log := log + [MetadataOverrun];
          EmptyAppend(entries);
          break;
        }
        assert RecordAt(m, pos, endian) == Success(Step(keyAndValue.value, metaReader.pos));
        ghost var after := ParseMetadata(m, metaReader.pos, endian);
        if 0 in keyAndValue.value {
          entries := entries + [SplitEntry(keyAndValue.value)];
          AppendAssoc(entries[..|entries| - 1], [SplitEntry(keyAndValue.value)], after.entries);
        } else {
          log := log + [MissingNul];
          AppendAssoc(log[..|log| - 1], [MissingNul], after.log);
        }
        more := metaReader.HasMore();
      }
      if more {
        assert metaReader.pos == |m|;
      }
      EmptyAppend(entries);
      EmptyAppend(log);
      r := Success(MetaParse(entries, log));
    }

    /**
     * The images of one level: `faces` images of `size` bytes (word-swapped
     * by `wordSize` in a big-endian stream), each followed by padding to 4.
     */
    static method ReadLevelImages(reader: Reader, size: nat, wordSize: nat, faces: nat)
      returns (r: Result<seq<seq<byte>>, Exception>)
      requires reader.Valid()
      modifies reader`pos
      ensures reader.Valid()
      ensures match ReadImages(reader.data, old(reader.pos), reader.endian, wordSize, size, faces)
        case Success(st) => r == Success(st.value) && reader.pos == st.next
        case Failure(err) => r == Failure(err) && reader.pos == |reader.data|
    {
      ghost var s, endian, start := reader.data, reader.endian, reader.pos;
      var images: seq<seq<byte>> := [];
      WithNoImages(ReadImages(s, start, endian, wordSize, size, faces));
      for j := 0 to faces
        invariant reader.Valid() && reader.endian == endian
        invariant WithImages([], ReadImages(s, start, endian, wordSize, size, faces))
               == WithImages(images, ReadImages(s, reader.pos, endian, wordSize, size, faces - j))
      {
        ghost var p := reader.pos;
        var image :- reader.Bytes(size, wordSize);
        assert BytesAt(s, p, size, endian, wordSize) == Success(Step(image, reader.pos));
        ghost var q := reader.pos;
        var padded :- reader.Align(4);
        assert AlignAt(s, q, 4) == Success(reader.pos);
        ReadImagesStep(s, p, endian, wordSize, size, faces - j, images, image, reader.pos);
        images := images + [image];
      }
      EmptyAppend(images);
      assert ReadImages(s, reader.pos, endian, wordSize, size, 0) == Success(Step([], reader.pos));
      WithNoImages(ReadImages(s, start, endian, wordSize, size, faces));
      r := Success(images);
    }

    /**
     * The level part of `fromBinary`: up to `count` levels, each an image
     * size and `faces` images of that size. A short read anywhere in a
     * level drops that level, logs a warning and ends the loop.
     */
    static method ReadLevels(reader: Reader, wordSize: nat, faces: nat, count: nat)
      returns (levels: seq<Level>, log: seq<Diagnostic>)
      requires reader.Valid()
      modifies reader`pos
      ensures reader.Valid()
      ensures LevelParse(levels, reader.pos, log)
           == ParseLevels(reader.data, old(reader.pos), reader.endian, wordSize, faces, count)
    {
      ghost var s, endian, p0 := reader.data, reader.endian, reader.pos;
      levels, log := [], [];
      EmptyAppend(ParseLevels(s, p0, endian, wordSize, faces, count).levels);
      EmptyAppend(ParseLevels(s, p0, endian, wordSize, faces, count).log);
      for i := 0 to count
        invariant reader.Valid() && reader.endian == endian
        invariant ParseLevels(s, p0, endian, wordSize, faces, count) == LevelParse(
          levels + ParseLevels(s, reader.pos, endian, wordSize, faces, count - i).levels,
          ParseLevels(s, reader.pos, endian, wordSize, faces, count - i).next,
          log + ParseLevels(s, reader.pos, endian, wordSize, faces, count - i).log)
      {
        ghost var pos := reader.pos;
        var imageSize := reader.Uint32();
        var images: Result<seq<seq<byte>>, Exception> := Failure(EOFError);
        if imageSize.Success? {
          images := ReadLevelImages(reader, imageSize.value as nat, wordSize, faces);
        }
        if images.Failure? {
          log := log + [TruncatedImageData];
          EmptyAppend(levels);
          break;
        }
        ghost var rest := ParseLevels(s, reader.pos, endian, wordSize, faces, count - i - 1);
        var level := Level(imageSize.value, images.value);
        assert ParseLevels(s, pos, endian, wordSize, faces, count - i)
            == LevelParse([level] + rest.levels, rest.next, rest.log);
        AppendAssoc(levels, [level], rest.levels);
        levels := levels + [level];
      }
      EmptyAppend(levels);
      EmptyAppend(log);
    }

    /** An object whose fields hold the record `t`. */
    constructor FromRecord(t: Texture)
      ensures Value() == t
    {
      identifier, endianness, glType, glTypeSize, glFormat, glInternalFormat, glBaseInternalFormat,
        pixelWidth, pixelHeight, pixelDepth, numberOfArrayElements, numberOfFaces, numberOfMipmapLevels,
        bytesOfKeyValueData, metadata, levels :=
        t.identifier, t.endianness, t.glType, t.glTypeSize, t.glFormat, t.glInternalFormat, t.glBaseInternalFormat,
        t.pixelWidth, t.pixelHeight, t.pixelDepth, t.numberOfArrayElements, t.numberOfFaces, t.numberOfMipmapLevels,
        t.bytesOfKeyValueData, t.metadata, t.levels;
    }

    /**
     * `Ktx.fromBinary` up to its call of `validate()`: the header, the
     * key/value block, the levels, and a warning for bytes left over. It
     * fails with the EOFError of a short header or key/value block.
     */
    static method ReadRecord(stream: seq<byte>) returns (r: Result<Texture, Exception>, log: seq<Diagnostic>)
      ensures Logged(r, log) == Parse(stream)
    {
      var reader := new Reader(stream);
      var header;
      header, log := ReadHeader(reader);
      if header.Failure? {
        return Failure(header.error), log;
      }
      var h := header.value;
      ghost var endian := reader.endian;
      var meta := ReadMetadata(reader, h.bytesOfKeyValueData);
      if meta.Failure? {
        return Failure(meta.error), log;
      }
      ghost var levelStart := reader.pos;
      assert levelStart == HEADER_SIZE + h.bytesOfKeyValueData;
      assert meta.value == ParseMetadata(stream[HEADER_SIZE..levelStart], 0, endian);
      var levels, levelLog := ReadLevels(reader, h.glTypeSize as nat, ImagesPerLevel(h), LevelCount(h));
      ParseOfReads(stream, reader.endian, h, meta.value, LevelParse(levels, reader.pos, levelLog));
      log := log + meta.value.log + levelLog;
      var more := reader.HasMore();
      if more {
        log := log + [TrailingBytes];
      } else {
        EmptyAppend(log);
      }
      r := Success(h.(metadata := meta.value.entries, levels := levels));
    }

    /**
     * `Ktx.fromBinary`: the record read from the stream, stored in a new
     * object, then `validate()`. It fails with the EOFError of a short
     * header or key/value block, or with the error `validate` raises; the
     * log is the reading log followed by the validation log.
     */
    static method FromBinary(stream: seq<byte>) returns (r: Result<Ktx, Exception>, log: seq<Diagnostic>)
      ensures log == Load(stream).log
      ensures r.Success? <==> Load(stream).result.Success?
      ensures r.Failure? ==> r.error == Load(stream).result.error
      ensures r.Success? ==> fresh(r.value) && r.value.Value() == Load(stream).result.value
    {
      var t;
      t, log := ReadRecord(stream);
      if t.Failure? {
        return Failure(t.error), log;
      }
      var ktx := new Ktx.FromRecord(t.value);
      var checked, notes := ktx.Validate();
      log := log + notes;
      if checked.Failure? {
        r := Failure(checked.error);
      } else {
        r := Success(ktx);
      }
    }
  }

  /**
   * What `Ktx.fromBinary` yields for a stream: the record `Parse` reads,
   * unless reading or `validate()` raises; the reading log followed by the
   * validation log.
   */
  function Load(s: seq<byte>): Logged<Texture>
  {
    var parsed := Parse(s);
    match parsed.result
    case Failure(e) => parsed
    case Success(t) =>
      var checked := Check(t);
      Logged(if checked.result.Failure? then Failure(checked.result.error) else Success(t), parsed.log + checked.log)
  }

  /**
   * What `fromBinary` promises: it fails with EOFError exactly when the
   * header or the key/value block is cut short, and with UnicodeDecodeError
   * exactly when the record it read has a reserved key that is not UTF-8;
   * otherwise it returns that record, logged after what reading logged.
   */
  lemma LoadOutcome(s: seq<byte>)
    ensures Parse(s).result.Failure? ==> Load(s) == Parse(s) && Load(s).result.error == EOFError
    ensures Parse(s).result.Success? ==>
      var t := Parse(s).result.value;
      && Load(s).log == Parse(s).log + Check(t).log
      && (Load(s).result.Failure? <==> exists k | 0 <= k < |t.metadata| :: DecodeFails(t.metadata[k]))
      && (Load(s).result.Failure? ==> Load(s).result.error == UnicodeDecodeError)
      && (Load(s).result.Success? ==> Load(s).result.value == t && WellRead(t))
  {
    ParseOutcome(s);
    if Parse(s).result.Success? {
      CheckResult(Parse(s).result.value);
    }
  }

  /**
   * Reading back what `toBinary` wrote: a well-formed record that
   * `validate` accepts comes back unchanged, with the byte-order note of a
   * big-endian stream followed by the validation log.
   */
  lemma LoadEncoded(t: Texture, endian: Endian)
    requires WellFormed(t, endian) && Check(t).result.Success?
    ensures Load(Encode(t, endian)) == Logged(Success(t), EndianNote(endian) + Check(t).log)
  {
    RoundTrip(t, endian);
  }
}
