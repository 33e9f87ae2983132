/**
 * `Ktx.validate` (ktxjuggle/ktx.py): one pass over the header words, the
 * metadata entries and the levels that logs what breaks the rules of the
 * container and changes nothing. The one way it can fail is the message
 * about an unknown key with the reserved prefix: formatting it decodes the
 * key as UTF-8, which raises UnicodeDecodeError when the key is not UTF-8.
 *
 * Check is the whole pass as a function; the lemmas at the end say, for
 * every message, exactly when it is logged.
 */
module KtxCheck {
  import opened Base
  import opened KtxLayout

  // ---------------------------------------------------------------------
  // Keys and UTF-8
  // ---------------------------------------------------------------------

  /** The one key with the reserved prefix that the format defines: b'KTXorientation'. */
  const ORIENTATION_KEY: seq<byte> := [0x4B, 0x54, 0x58, 0x6F, 0x72, 0x69, 0x65, 0x6E, 0x74, 0x61, 0x74, 0x69, 0x6F, 0x6E]

  /** `key.startswith(b'KTX') or key.startswith(b'ktx')`. */
  predicate HasReservedPrefix(key: seq<byte>)
  {
    3 <= |key| && (key[..3] == [0x4B, 0x54, 0x58] || key[..3] == [0x6B, 0x74, 0x78])
  }

  /** The number of bytes of the character lead byte `b` starts in well-formed UTF-8, or 0 if it starts none. */
  function LeadLength(b: byte): (n: nat)
    ensures n <= 4
  {
    if b <= 0x7F then 1
    else if 0xC2 <= b <= 0xDF then 2
    else if 0xE0 <= b <= 0xEF then 3
    else if 0xF0 <= b <= 0xF4 then 4
    else 0
  }

  /**
   * The bounds of the byte after lead byte `b`: narrower than 0x80..0xBF
   * after E0 and F0 (no overlong forms), ED (no surrogates) and F4 (nothing
   * above U+10FFFF).
   */
  function SecondLow(b: byte): byte
  {
    if b == 0xE0 then 0xA0 else if b == 0xF0 then 0x90 else 0x80
  }

  function SecondHigh(b: byte): byte
  {
    if b == 0xED then 0x9F else if b == 0xF4 then 0x8F else 0xBF
  }

  /** A well-formed UTF-8 character starts at `i` (table 3-7 of the Unicode Standard). */
  predicate CharAt(key: seq<byte>, i: nat)
    requires i < |key|
  {
    var n := LeadLength(key[i]);
    && 0 < n && i + n <= |key|
    && (n == 1 || SecondLow(key[i]) <= key[i + 1] <= SecondHigh(key[i]))
    && (forall k | i + 2 <= k < i + n :: 0x80 <= key[k] <= 0xBF)
  }

  /** `key[i:]` decodes as strict UTF-8, as `bytes.decode()` requires. */
  predicate Utf8From(key: seq<byte>, i: nat)
    decreases |key| - i
  {
    i >= |key| || (CharAt(key, i) && Utf8From(key, i + LeadLength(key[i])))
  }

  predicate IsUtf8(key: seq<byte>)
  {
    Utf8From(key, 0)
  }

  /** Bytes below 0x80 always decode: in particular every key of plain ASCII does. */
  lemma {:induction false} AsciiIsUtf8(key: seq<byte>, i: nat)
    requires forall k | i <= k < |key| :: key[k] < 0x80
    ensures Utf8From(key, i)
    decreases |key| - i
  {
    if i < |key| {
      AsciiIsUtf8(key, i + 1);
    }
  }

  /** A continuation byte cannot start a character, so a key that starts with one does not decode. */
  lemma ContinuationFirstIsNotUtf8(key: seq<byte>)
    requires 0 < |key| && 0x80 <= key[0] <= 0xBF
    ensures !IsUtf8(key)
  {
  }

  // ---------------------------------------------------------------------
  // The three parts of the pass
  // ---------------------------------------------------------------------

  /** `prevImageSize` before the first level: no 32-bit image size exceeds it. */
  const FIRST_PREVIOUS_IMAGE_SIZE: int := 0xffff_ffff

  /** The checks of the header words, in the order `validate` makes them. */
  function HeaderNotes(t: Texture): seq<Diagnostic>
  {
    (if t.identifier != IDENTIFIER then [InvalidIdentifier] else [])
    + (if t.endianness != NATIVE_ENDIANNESS then [InvalidEndianness] else [])
    + (if t.glTypeSize == 0 then [ZeroTypeSize] else [])
    + (if t.pixelWidth == 0 then [ZeroWidth] else [])
    + (if t.pixelHeight == 0 && t.pixelDepth != 0 then [ZeroHeight] else [])
    + (if t.numberOfFaces != 1 && t.numberOfFaces != 6 then [BadFaceCount] else [])
    + (if t.numberOfFaces != 1 && t.IsOESCPT() then [PaletteFaceCount] else [])
    + (if !t.IsOESCPT() && (if t.numberOfMipmapLevels < 1 then 1 else t.numberOfMipmapLevels as int) != |t.levels|
       then [LevelCountMismatch] else [])
  }

  /** Formatting the message about entry `kv` raises: an unknown reserved key that is not UTF-8. */
  predicate DecodeFails(kv: KeyValue)
  {
    HasReservedPrefix(kv.key) && kv.key != ORIENTATION_KEY && !IsUtf8(kv.key)
  }

  /** What the metadata loop logs for entry `entry` when the keys before it are `seen`. */
  function EntryNotes(kv: KeyValue, entry: nat, seen: set<seq<byte>>): seq<Diagnostic>
  {
    (if |kv.key| == 0 then [EmptyKey(entry)] else [])
    + (if |kv.value| == 0 then [EmptyValue(entry)] else [])
    + (if kv.key in seen then [DuplicateKey(entry)] else [])
    + (if HasReservedPrefix(kv.key) && kv.key != ORIENTATION_KEY && IsUtf8(kv.key) then [UnknownReservedKey(entry)] else [])
  }

  /** The keys of entries `i..j`: for `i` = 0, what `prevKeys` holds when the loop reaches entry `j`. */
  function KeysBetween(md: seq<KeyValue>, i: nat, j: nat): set<seq<byte>>
    requires i <= j <= |md|
  {
    set k | i <= k < j :: md[k].key
  }

  /**
   * The metadata loop from entry `i`: the entry's notes, then either the
   * decoding error or the rest of the loop.
   */
  function MetadataNotes(md: seq<KeyValue>, i: nat): Logged<()>
    requires i <= |md|
    decreases |md| - i
  {
    if i == |md| then Logged(Success(()), [])
    else
      var notes := EntryNotes(md[i], i, KeysBetween(md, 0, i));
      if DecodeFails(md[i]) then Logged(Failure(UnicodeDecodeError), notes)
      else
        var rest := MetadataNotes(md, i + 1);
        Logged(rest.result, notes + rest.log)
  }

  /** What the image loop logs for images `j..` of level `level`, whose declared size is `size`. */
  function ImageNotes(typeSize: uint32, level: nat, size: uint32, images: seq<seq<byte>>, j: nat): seq<Diagnostic>
    requires j <= |images|
    decreases |images| - j
  {
    if j == |images| then []
    else
      (if size != |images[j]| then [ImageSizeMismatch(level, j)] else [])
      + (if typeSize != 0 && |images[j]| % typeSize as int != 0 then [NotTypeSizeMultiple(level, j)] else [])
      + ImageNotes(typeSize, level, size, images, j + 1)
  }

  /** What the level loop logs for one level, given `prevImageSize`. */
  function OneLevelNotes(t: Texture, i: nat, previous: int): seq<Diagnostic>
    requires i < |t.levels|
  {
    var l := t.levels[i];
    (if t.numberOfFaces != |l.images| then [FaceCountMismatch(i)] else [])
    + (if l.imageSize as int > previous then [ImageSizeIncrease(i)] else [])
    + ImageNotes(t.glTypeSize, i, l.imageSize, l.images, 0)
  }

  /** The level loop from level `i`, where `previous` is `prevImageSize`. */
  function LevelNotes(t: Texture, i: nat, previous: int): seq<Diagnostic>
    requires i <= |t.levels|
    decreases |t.levels| - i
  {
    if i == |t.levels| then []
    else OneLevelNotes(t, i, previous) + LevelNotes(t, i + 1, t.levels[i].imageSize as int)
  }

  /** The level loop's notes, which `validate` reaches only when the metadata loop does not raise. */
  function LevelsAfter(t: Texture): seq<Diagnostic>
  {
    if MetadataNotes(t.metadata, 0).result.Success? then LevelNotes(t, 0, FIRST_PREVIOUS_IMAGE_SIZE) else []
  }

  /** `validate()`: header checks, the metadata loop, and the level loop if the metadata loop did not raise. */
  function Check(t: Texture): Logged<()>
  {
    Logged(MetadataNotes(t.metadata, 0).result, HeaderNotes(t) + MetadataNotes(t.metadata, 0).log + LevelsAfter(t))
  }

  // ---------------------------------------------------------------------
  // Which part logs which message
  // ---------------------------------------------------------------------

  predicate IsHeaderNote(d: Diagnostic)
  {
    || d.InvalidIdentifier? || d.InvalidEndianness? || d.ZeroTypeSize? || d.ZeroWidth?
    || d.ZeroHeight? || d.BadFaceCount? || d.PaletteFaceCount? || d.LevelCountMismatch?
  }

  predicate IsEntryNote(d: Diagnostic)
  {
    d.EmptyKey? || d.EmptyValue? || d.DuplicateKey? || d.UnknownReservedKey?
  }

  predicate IsLevelNote(d: Diagnostic)
  {
    d.FaceCountMismatch? || d.ImageSizeIncrease? || d.ImageSizeMismatch? || d.NotTypeSizeMultiple?
  }

  predicate IsImageNote(d: Diagnostic)
  {
    d.ImageSizeMismatch? || d.NotTypeSizeMultiple?
  }

  /** The entry notes of entry `entry` are about that entry only. */
  lemma EntryNotesKind(kv: KeyValue, entry: nat, seen: set<seq<byte>>, d: Diagnostic)
    ensures d in EntryNotes(kv, entry, seen) ==> IsEntryNote(d) && d.entry == entry
  {
  }

  /** The image notes from image `j` are about level `level` and its images from `j` on. */
  lemma {:induction false} ImageNotesKind(typeSize: uint32, level: nat, size: uint32, images: seq<seq<byte>>, j: nat, d: Diagnostic)
    requires j <= |images|
    ensures d in ImageNotes(typeSize, level, size, images, j) ==> IsImageNote(d) && d.level == level && j <= d.face
    decreases |images| - j
  {
    if j < |images| {
      ImageNotesKind(typeSize, level, size, images, j + 1, d);
    }
  }

  /** The metadata loop from entry `i` logs notes about entries `i..` only. */
  lemma {:induction false} MetadataNotesKind(md: seq<KeyValue>, i: nat, d: Diagnostic)
    requires i <= |md|
    ensures d in MetadataNotes(md, i).log ==> IsEntryNote(d) && i <= d.entry
    decreases |md| - i
  {
    if i < |md| {
      EntryNotesKind(md[i], i, KeysBetween(md, 0, i), d);
      if !DecodeFails(md[i]) {
        MetadataNotesKind(md, i + 1, d);
      }
    }
  }

  /** The notes of one level are about that level only. */
  lemma OneLevelNotesKind(t: Texture, i: nat, previous: int, d: Diagnostic)
    requires i < |t.levels|
    ensures d in OneLevelNotes(t, i, previous) ==> IsLevelNote(d) && d.level == i
  {
    ImageNotesKind(t.glTypeSize, i, t.levels[i].imageSize, t.levels[i].images, 0, d);
  }

  /** The level loop from level `i` logs notes about levels `i..` only. */
  lemma {:induction false} LevelNotesKind(t: Texture, i: nat, previous: int, d: Diagnostic)
    requires i <= |t.levels|
    ensures d in LevelNotes(t, i, previous) ==> IsLevelNote(d) && i <= d.level
    decreases |t.levels| - i
  {
    if i < |t.levels| {
      OneLevelNotesKind(t, i, previous, d);
      LevelNotesKind(t, i + 1, t.levels[i].imageSize as int, d);
    }
  }

  // ---------------------------------------------------------------------
  // Where each note comes from
  // ---------------------------------------------------------------------

  /** No entry among `i..j` makes the metadata loop raise: the loop from `i` reaches entry `j`. */
  predicate NoFailureBetween(md: seq<KeyValue>, i: nat, j: nat)
    requires i <= j <= |md|
    decreases j - i
  {
    i == j || (!DecodeFails(md[i]) && NoFailureBetween(md, i + 1, j))
  }

  /** NoFailureBetween says that every entry among `i..j` decodes. */
  lemma {:induction false} NoFailureBetweenAll(md: seq<KeyValue>, i: nat, j: nat)
    requires i <= j <= |md|
    ensures NoFailureBetween(md, i, j) <==> forall k | i <= k < j :: !DecodeFails(md[k])
    decreases j - i
  {
    if i < j {
      NoFailureBetweenAll(md, i + 1, j);
    }
  }

  /** Note `d` is about an entry from `i` on that the loop from `i` reaches, and that entry's checks log it. */
  predicate LoggedFrom(md: seq<KeyValue>, i: nat, d: Diagnostic)
    requires i <= |md| && IsEntryNote(d)
  {
    && i <= d.entry < |md|
    && NoFailureBetween(md, i, d.entry)
    && d in EntryNotes(md[d.entry], d.entry, KeysBetween(md, 0, d.entry))
  }

  /**
   * A note about entry `e` is logged by the loop from `i` exactly when the
   * loop reaches `e` and the entry's own checks log it.
   */
  lemma {:induction false} MetadataNotesAt(md: seq<KeyValue>, i: nat, d: Diagnostic)
    requires i <= |md| && IsEntryNote(d)
    ensures d in MetadataNotes(md, i).log <==> LoggedFrom(md, i, d)
    decreases |md| - i
  {
    if i < |md| {
      if DecodeFails(md[i]) {
        MetadataNotesStop(md, i, d);
      } else {
        MetadataNotesAt(md, i + 1, d);
        MetadataNotesStep(md, i, d);
      }
    }
  }

  /** At an entry that fails to decode the loop logs that entry's notes and stops. */
  lemma MetadataNotesStop(md: seq<KeyValue>, i: nat, d: Diagnostic)
    requires i < |md| && IsEntryNote(d) && DecodeFails(md[i])
    ensures d in MetadataNotes(md, i).log <==> LoggedFrom(md, i, d)
  {
    var notes := EntryNotes(md[i], i, KeysBetween(md, 0, i));
    EntryNotesKind(md[i], i, KeysBetween(md, 0, i), d);
    assert MetadataNotes(md, i).log == notes;
    if d.entry != i {
      assert d !in notes;
    }
  }

  /** Past an entry that decodes, the loop logs that entry's notes and goes on. */
  lemma MetadataNotesStep(md: seq<KeyValue>, i: nat, d: Diagnostic)
    requires i < |md| && IsEntryNote(d) && !DecodeFails(md[i])
    requires d in MetadataNotes(md, i + 1).log <==> LoggedFrom(md, i + 1, d)
    ensures d in MetadataNotes(md, i).log <==> LoggedFrom(md, i, d)
  {
    var notes := EntryNotes(md[i], i, KeysBetween(md, 0, i));
    var rest := MetadataNotes(md, i + 1).log;
    EntryNotesKind(md[i], i, KeysBetween(md, 0, i), d);
    assert MetadataNotes(md, i).log == notes + rest;
    if d.entry == i {
      assert d !in rest;
    } else {
      assert d !in notes;
    }
  }

  /** The metadata loop from `i` raises exactly when some entry from `i` on fails to decode, and then with UnicodeDecodeError. */
  lemma {:induction false} MetadataNotesResult(md: seq<KeyValue>, i: nat)
    requires i <= |md|
    ensures MetadataNotes(md, i).result ==
      if exists k | i <= k < |md| :: DecodeFails(md[k]) then Failure(UnicodeDecodeError) else Success(())
    decreases |md| - i
  {
    if i < |md| && !DecodeFails(md[i]) {
      MetadataNotesResult(md, i + 1);
      assert (exists k | i <= k < |md| :: DecodeFails(md[k])) <==> (exists k | i + 1 <= k < |md| :: DecodeFails(md[k]));
    }
  }

  /** The rule of one image that calls for image note `d`. */
  predicate ImageRule(typeSize: uint32, size: uint32, image: seq<byte>, d: Diagnostic)
  {
    match d
    case ImageSizeMismatch(_, _) => size as int != |image|
    case NotTypeSizeMultiple(_, _) => typeSize != 0 && |image| % typeSize as int != 0
    case _ => false
  }

  /** Note `d` is about image `j` or a later one of level `level`, and that image breaks its rule. */
  predicate ImageLoggedFrom(typeSize: uint32, level: nat, size: uint32, images: seq<seq<byte>>, j: nat, d: Diagnostic)
  {
    IsImageNote(d) && d.level == level && j <= d.face < |images| && ImageRule(typeSize, size, images[d.face], d)
  }

  /** The image loop from `j` logs exactly the notes of the images from `j` on that break their rules. */
  lemma {:induction false} ImageNotesAt(typeSize: uint32, level: nat, size: uint32, images: seq<seq<byte>>, j: nat, d: Diagnostic)
    requires j <= |images|
    ensures d in ImageNotes(typeSize, level, size, images, j) <==> ImageLoggedFrom(typeSize, level, size, images, j, d)
    decreases |images| - j
  {
    if j < |images| {
      ImageNotesAt(typeSize, level, size, images, j + 1, d);
      ImageNotesStep(typeSize, level, size, images, j, d);
    }
  }

  lemma ImageNotesStep(typeSize: uint32, level: nat, size: uint32, images: seq<seq<byte>>, j: nat, d: Diagnostic)
    requires j < |images|
    requires d in ImageNotes(typeSize, level, size, images, j + 1) <==> ImageLoggedFrom(typeSize, level, size, images, j + 1, d)
    ensures d in ImageNotes(typeSize, level, size, images, j) <==> ImageLoggedFrom(typeSize, level, size, images, j, d)
  {
    ImageNotesKind(typeSize, level, size, images, j + 1, d);
  }

  /** `prevImageSize` at level `l` of a level loop that started at level `i` with `previous`. */
  function PreviousSize(t: Texture, i: nat, previous: int, l: nat): int
    requires i <= l < |t.levels|
  {
    if l == i then previous else t.levels[l - 1].imageSize as int
  }

  /** The rule of level `d.level`, whose predecessor had size `previous`, that calls for level note `d`. */
  predicate LevelRule(t: Texture, previous: int, d: Diagnostic)
    requires IsLevelNote(d) && d.level < |t.levels|
  {
    var l := t.levels[d.level];
    match d
    case FaceCountMismatch(_) => t.numberOfFaces as int != |l.images|
    case ImageSizeIncrease(_) => l.imageSize as int > previous
    case ImageSizeMismatch(_, f) => f < |l.images| && ImageRule(t.glTypeSize, l.imageSize, l.images[f], d)
    case NotTypeSizeMultiple(_, f) => f < |l.images| && ImageRule(t.glTypeSize, l.imageSize, l.images[f], d)
    case _ => false
  }

  /** One level logs exactly its own notes whose rules it breaks. */
  lemma OneLevelNotesAt(t: Texture, i: nat, previous: int, d: Diagnostic)
    requires i < |t.levels|
    ensures d in OneLevelNotes(t, i, previous) <==> IsLevelNote(d) && d.level == i && LevelRule(t, previous, d)
  {
    ImageNotesAt(t.glTypeSize, i, t.levels[i].imageSize, t.levels[i].images, 0, d);
  }

  /** Note `d` is about level `i` or a later one, and that level breaks its rule. */
  predicate LevelLoggedFrom(t: Texture, i: nat, previous: int, d: Diagnostic)
  {
    IsLevelNote(d) && i <= d.level < |t.levels| && LevelRule(t, PreviousSize(t, i, previous, d.level), d)
  }

  /** The level loop from `i` logs exactly the notes of the levels from `i` on that break their rules. */
  lemma {:induction false} LevelNotesAt(t: Texture, i: nat, previous: int, d: Diagnostic)
    requires i <= |t.levels|
    ensures d in LevelNotes(t, i, previous) <==> LevelLoggedFrom(t, i, previous, d)
    decreases |t.levels| - i
  {
    if i < |t.levels| {
      LevelNotesAt(t, i + 1, t.levels[i].imageSize as int, d);
      LevelNotesStep(t, i, previous, d);
    }
  }

  lemma LevelNotesStep(t: Texture, i: nat, previous: int, d: Diagnostic)
    requires i < |t.levels|
    requires d in LevelNotes(t, i + 1, t.levels[i].imageSize as int) <==> LevelLoggedFrom(t, i + 1, t.levels[i].imageSize as int, d)
    ensures d in LevelNotes(t, i, previous) <==> LevelLoggedFrom(t, i, previous, d)
  {
    OneLevelNotesAt(t, i, previous, d);
    LevelNotesKind(t, i + 1, t.levels[i].imageSize as int, d);
  }

  // ---------------------------------------------------------------------
  // The pass as a whole
  // ---------------------------------------------------------------------

  /** `validate` raises exactly when a metadata key fails to decode, and then with UnicodeDecodeError. */
  lemma CheckResult(t: Texture)
    ensures Check(t).result ==
      if exists k | 0 <= k < |t.metadata| :: DecodeFails(t.metadata[k]) then Failure(UnicodeDecodeError) else Success(())
  {
    MetadataNotesResult(t.metadata, 0);
  }

  /** The header notes are logged exactly when the header checks log them, whatever the rest of the pass does. */
  lemma CheckHeaderNote(t: Texture, d: Diagnostic)
    requires IsHeaderNote(d)
    ensures d in Check(t).log <==> d in HeaderNotes(t)
  {
    MetadataNotesKind(t.metadata, 0, d);
    LevelNotesKind(t, 0, FIRST_PREVIOUS_IMAGE_SIZE, d);
  }

  /** The rule of the header that calls for note `d`. */
  predicate HeaderRule(t: Texture, d: Diagnostic)
  {
    match d
    case InvalidIdentifier => t.identifier != IDENTIFIER
    case InvalidEndianness => t.endianness != NATIVE_ENDIANNESS
    case ZeroTypeSize => t.glTypeSize == 0
    case ZeroWidth => t.pixelWidth == 0
    case ZeroHeight => t.pixelHeight == 0 && t.pixelDepth != 0
    case BadFaceCount => t.numberOfFaces != 1 && t.numberOfFaces != 6
    case PaletteFaceCount => t.numberOfFaces != 1 && t.IsOESCPT()
    case LevelCountMismatch => !t.IsOESCPT() && (if t.numberOfMipmapLevels == 0 then 1 else t.numberOfMipmapLevels as int) != |t.levels|
    case _ => false
  }

  /** The header checks log exactly the header notes whose rules `t` breaks. */
  lemma HeaderNotesAt(t: Texture, d: Diagnostic)
    ensures d in HeaderNotes(t) <==> IsHeaderNote(d) && HeaderRule(t, d)
  {
  }

  /** Each header note is in the log exactly when its rule is broken, whatever the rest of the pass does. */
  lemma CheckHeader(t: Texture, d: Diagnostic)
    requires IsHeaderNote(d)
    ensures d in Check(t).log <==> HeaderRule(t, d)
  {
    CheckHeaderNote(t, d);
    HeaderNotesAt(t, d);
  }

  /** A note about entry `e` is in the log exactly when the loop reaches `e` and the entry's checks log it. */
  lemma CheckEntry(t: Texture, d: Diagnostic)
    requires IsEntryNote(d)
    ensures d in Check(t).log <==> LoggedFrom(t.metadata, 0, d)
  {
    HeaderNotesAt(t, d);
    LevelNotesKind(t, 0, FIRST_PREVIOUS_IMAGE_SIZE, d);
    MetadataNotesAt(t.metadata, 0, d);
  }

  /** An empty key is reported for every entry the loop reaches that has one. */
  lemma EmptyKeyLogged(t: Texture, e: nat)
    ensures EmptyKey(e) in Check(t).log <==>
      e < |t.metadata| && NoFailureBetween(t.metadata, 0, e) && |t.metadata[e].key| == 0
  {
    CheckEntry(t, EmptyKey(e));
  }

  /** An empty value is reported for every entry the loop reaches that has one. */
  lemma EmptyValueLogged(t: Texture, e: nat)
    ensures EmptyValue(e) in Check(t).log <==>
      e < |t.metadata| && NoFailureBetween(t.metadata, 0, e) && |t.metadata[e].value| == 0
  {
    CheckEntry(t, EmptyValue(e));
  }

  /** A key is reported as a duplicate exactly when an earlier entry has the same key. */
  lemma DuplicateKeyLogged(t: Texture, e: nat)
    ensures DuplicateKey(e) in Check(t).log <==>
      && e < |t.metadata| && NoFailureBetween(t.metadata, 0, e)
      && exists k | 0 <= k < e :: t.metadata[k].key == t.metadata[e].key
  {
    CheckEntry(t, DuplicateKey(e));
    if e < |t.metadata| && t.metadata[e].key in KeysBetween(t.metadata, 0, e) {
      var k :| 0 <= k < e && t.metadata[k].key == t.metadata[e].key;
    }
  }

  /** A key with the reserved prefix other than the orientation key is reported when it decodes. */
  lemma UnknownReservedKeyLogged(t: Texture, e: nat)
    ensures UnknownReservedKey(e) in Check(t).log <==>
      && e < |t.metadata| && NoFailureBetween(t.metadata, 0, e)
      && HasReservedPrefix(t.metadata[e].key) && t.metadata[e].key != ORIENTATION_KEY && IsUtf8(t.metadata[e].key)
  {
    CheckEntry(t, UnknownReservedKey(e));
  }

  /** The level notes are in the log exactly when the metadata loop did not raise and the level breaks the note's rule. */
  lemma CheckLevel(t: Texture, d: Diagnostic)
    requires IsLevelNote(d)
    ensures d in Check(t).log <==>
      && Check(t).result.Success?
      && d.level < |t.levels|
      && LevelRule(t, PreviousSize(t, 0, FIRST_PREVIOUS_IMAGE_SIZE, d.level), d)
  {
    HeaderNotesAt(t, d);
    MetadataNotesKind(t.metadata, 0, d);
    LevelNotesAt(t, 0, FIRST_PREVIOUS_IMAGE_SIZE, d);
  }

  /** A level whose image count is not `numberOfFaces` is reported, once the metadata loop has passed. */
  lemma FaceCountMismatchLogged(t: Texture, l: nat)
    ensures FaceCountMismatch(l) in Check(t).log <==>
      Check(t).result.Success? && l < |t.levels| && t.numberOfFaces as int != |t.levels[l].images|
  {
    CheckLevel(t, FaceCountMismatch(l));
  }

  /**
   * A growing image size is reported exactly for a level after the first
   * whose size exceeds its predecessor's: the first level is compared with
   * 0xffffffff, which no 32-bit size exceeds.
   */
  lemma ImageSizeIncreaseLogged(t: Texture, l: nat)
    ensures ImageSizeIncrease(l) in Check(t).log <==>
      Check(t).result.Success? && 0 < l < |t.levels| && t.levels[l].imageSize > t.levels[l - 1].imageSize
  {
    CheckLevel(t, ImageSizeIncrease(l));
  }

  /** An image whose length is not the level's `imageSize` is reported. */
  lemma ImageSizeMismatchLogged(t: Texture, l: nat, f: nat)
    ensures ImageSizeMismatch(l, f) in Check(t).log <==>
      && Check(t).result.Success? && l < |t.levels| && f < |t.levels[l].images|
      && t.levels[l].imageSize as int != |t.levels[l].images[f]|
  {
    CheckLevel(t, ImageSizeMismatch(l, f));
  }

  /** An image whose length is not a multiple of a nonzero `glTypeSize` is reported. */
  lemma NotTypeSizeMultipleLogged(t: Texture, l: nat, f: nat)
    ensures NotTypeSizeMultiple(l, f) in Check(t).log <==>
      && Check(t).result.Success? && l < |t.levels| && f < |t.levels[l].images|
      && t.glTypeSize != 0 && |t.levels[l].images[f]| % t.glTypeSize as int != 0
  {
    CheckLevel(t, NotTypeSizeMultiple(l, f));
  }
}
