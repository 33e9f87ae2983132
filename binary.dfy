/**
 * The byte cursor of ktxjuggle/binary.py: a Reader and a Writer over a
 * stream, each with a selectable byte order.
 *
 * A stream is its bytes plus a position. The pure functions BytesAt,
 * Uint32At and AlignAt say what one read at a given position yields. They
 * specify the Reader's methods, and the container codec is specified with
 * them.
 */
module Binary {
  import opened Base

  datatype Endian = Little | Big

  /** The bytes of `s` in reverse order. */
  function Reversed(s: seq<byte>): (r: seq<byte>)
    ensures |r| == |s|
    decreases |s|
  {
    if |s| == 0 then [] else Reversed(s[1..]) + [s[0]]
  }

  /** Reversing moves a last byte to the front. */
  lemma {:induction false} ReversedSnoc(s: seq<byte>, x: byte)
    ensures Reversed(s + [x]) == [x] + Reversed(s)
    decreases |s|
  {
    if s != [] {
      assert (s + [x])[1..] == s[1..] + [x];
      ReversedSnoc(s[1..], x);
    }
  }

  /** Byte `k` of the reversal is byte `|s| - 1 - k` of the original. */
  lemma {:induction false} ReversedIndex(s: seq<byte>, k: nat)
    requires k < |s|
    ensures Reversed(s)[k] == s[|s| - 1 - k]
    decreases |s|
  {
    if k < |s| - 1 {
      ReversedIndex(s[1..], k);
    }
  }

  lemma {:induction false} ReversedTwice(s: seq<byte>)
    ensures Reversed(Reversed(s)) == s
    decreases |s|
  {
    if s != [] {
      ReversedSnoc(Reversed(s[1..]), s[0]);
      ReversedTwice(s[1..]);
      assert [s[0]] + s[1..] == s;
    }
  }

  /**
   * Per-word byte swap of a bulk transfer: every `wordSize` chunk of `s`
   * is reversed, and so is a shorter final chunk.
   *
   * The big-endian branches of Reader.bytes and Writer.bytes
   * (binary.py:18-22 and 45-47) hand a `reversed` iterator to
   * `bytearray.append` and to `stream.write`, which accept neither, so as
   * written they raise TypeError (BytesAtAsWritten, WriteAsWritten). This
   * is the swap they evidently intend.
   */
  function SwapWords(s: seq<byte>, wordSize: nat): (r: seq<byte>)
    requires wordSize > 0
    ensures |r| == |s|
    decreases |s|
  {
    if |s| <= wordSize then Reversed(s)
    else Reversed(s[..wordSize]) + SwapWords(s[wordSize..], wordSize)
  }

  /** The first word of a transfer at least one word long is swapped on its own. */
  lemma SwapWordsFirst(s: seq<byte>, wordSize: nat)
    requires 0 < wordSize <= |s|
    ensures SwapWords(s, wordSize) == Reversed(s[..wordSize]) + SwapWords(s[wordSize..], wordSize)
  {
    if |s| == wordSize {
      assert s[..wordSize] == s && s[wordSize..] == [];
    }
  }

  /** A slice of a slice is a slice of the original. */
  lemma SliceOfSlice(s: seq<byte>, a: nat, b: nat, i: nat, j: nat)
    requires a <= b <= |s| && i <= j <= b - a
    ensures s[a..b][i..j] == s[a + i..a + j]
  {
    assert forall k :: 0 <= k < j - i ==> s[a..b][i..j][k] == s[a + i..a + j][k];
  }

  /** Swapping from a word boundary `c` on: the word at `c`, then the rest. */
  lemma SwapWordsAt(s: seq<byte>, c: nat, wordSize: nat)
    requires 0 < wordSize && c + wordSize <= |s|
    ensures SwapWords(s[c..], wordSize) == Reversed(s[c..c + wordSize]) + SwapWords(s[c + wordSize..], wordSize)
  {
    var t := s[c..];
    SwapWordsFirst(t, wordSize);
    assert t[..wordSize] == s[c..c + wordSize] && t[wordSize..] == s[c + wordSize..];
  }

  /** One more whole word swapped onto the output of a word-by-word transfer. */
  lemma SwapWordsStep(s: seq<byte>, c: nat, wordSize: nat, done: seq<byte>, chunk: seq<byte>)
    requires 0 < wordSize && c + wordSize <= |s| && chunk == s[c..c + wordSize]
    requires SwapWords(s, wordSize) == done + SwapWords(s[c..], wordSize)
    ensures SwapWords(s, wordSize) == (done + Reversed(chunk)) + SwapWords(s[c + wordSize..], wordSize)
  {
    SwapWordsAt(s, c, wordSize);
    var rest := SwapWords(s[c + wordSize..], wordSize);
    assert done + (Reversed(chunk) + rest) == (done + Reversed(chunk)) + rest;
  }

  /** One whole word read at offset `c` of a transfer that fits, appended swapped. */
  lemma ReadWordStep(data: seq<byte>, start: nat, size: nat, wordSize: nat, c: nat, done: seq<byte>, chunk: seq<byte>)
    requires 0 < wordSize && c + wordSize <= size && start + size <= |data|
    requires chunk == data[start + c..start + c + wordSize]
    requires SwapWords(data[start..start + size], wordSize) == done + SwapWords(data[start..start + size][c..], wordSize)
    ensures SwapWords(data[start..start + size], wordSize)
         == (done + Reversed(chunk)) + SwapWords(data[start..start + size][c + wordSize..], wordSize)
  {
    SliceOfSlice(data, start, start + size, c, c + wordSize);
    SwapWordsStep(data[start..start + size], c, wordSize, done, chunk);
  }

  /** Swapping twice gives the original bytes back. */
  lemma {:induction false} SwapWordsTwice(s: seq<byte>, wordSize: nat)
    requires wordSize > 0
    ensures SwapWords(SwapWords(s, wordSize), wordSize) == s
    decreases |s|
  {
    var r := SwapWords(s, wordSize);
    if |s| <= wordSize {
      ReversedTwice(s);
    } else {
      var head := Reversed(s[..wordSize]);
      var tail := SwapWords(s[wordSize..], wordSize);
      assert r == head + tail;
      assert r[..wordSize] == head && r[wordSize..] == tail;
      ReversedTwice(s[..wordSize]);
      SwapWordsTwice(s[wordSize..], wordSize);
      assert s == s[..wordSize] + s[wordSize..];
    }
  }

  /**
   * Where byte `i` of a swapped `n`-byte transfer comes from: the same word,
   * mirrored within it, a shorter last word within itself.
   */
  function SwapIndex(i: nat, wordSize: nat, n: nat): (j: nat)
    requires 0 < wordSize && i < n
    ensures j < n
    decreases i
  {
    if i < wordSize then Min(wordSize, n) - 1 - i
    else SwapIndex(i - wordSize, wordSize, n - wordSize) + wordSize
  }

  /** The per-word swap stated byte by byte. */
  function Swapped(s: seq<byte>, wordSize: nat): (r: seq<byte>)
    requires wordSize > 0
    ensures |r| == |s|
  {
    seq(|s|, i requires 0 <= i < |s| => s[SwapIndex(i, wordSize, |s|)])
  }

  /** The byte-by-byte swap is the word-by-word swap. */
  lemma {:induction false} SwappedIsSwapWords(s: seq<byte>, wordSize: nat)
    requires wordSize > 0
    ensures Swapped(s, wordSize) == SwapWords(s, wordSize)
    decreases |s|
  {
    var n := |s|;
    if n <= wordSize {
      forall i | 0 <= i < n ensures Swapped(s, wordSize)[i] == Reversed(s)[i] {
        ReversedIndex(s, i);
      }
    } else {
      var head := Reversed(s[..wordSize]);
      var t := s[wordSize..];
      SwappedIsSwapWords(t, wordSize);
      forall i | 0 <= i < n ensures Swapped(s, wordSize)[i] == (head + Swapped(t, wordSize))[i] {
        if i < wordSize {
          ReversedIndex(s[..wordSize], i);
        }
      }
    }
  }

  /**
   * What a bulk transfer does to its bytes: swapped per word under the big
   * byte order when `wordSize > 1`, passed through otherwise.
   */
  function Transfer(b: seq<byte>, endian: Endian, wordSize: nat): (r: seq<byte>)
    ensures |r| == |b|
  {
    if endian == Big && wordSize > 1 then SwapWords(b, wordSize) else b
  }

  /** A Writer transfer read back by a Reader with the same settings is the identity. */
  lemma TransferTwice(b: seq<byte>, endian: Endian, wordSize: nat)
    ensures Transfer(Transfer(b, endian, wordSize), endian, wordSize) == b
  {
    if endian == Big && wordSize > 1 {
      SwapWordsTwice(b, wordSize);
    }
  }

  /**
   * `Writer.bytes` as binary.py:44-49 is written: the swapped branch hands
   * `stream.write` a `reversed` iterator, which it refuses, so a swapped
   * write of at least one byte raises TypeError.
   */
  function WriteAsWritten(out: seq<byte>, b: seq<byte>, endian: Endian, wordSize: nat): Result<seq<byte>, Exception>
  {
    if endian == Big && wordSize > 1 && |b| > 0 then Failure(TypeError) else Success(out + Transfer(b, endian, wordSize))
  }

  /**
   * The discrepancy: a swapped write fails as written, where the intended
   * write appends bytes that a swapped read turns back into `b`.
   */
  lemma SwappedWriteAsWritten(out: seq<byte>, b: seq<byte>, wordSize: nat)
    requires wordSize > 1 && |b| > 0
    ensures WriteAsWritten(out, b, Big, wordSize) == Failure(TypeError)
    ensures Transfer(Transfer(b, Big, wordSize), Big, wordSize) == b
  {
    TransferTwice(b, Big, wordSize);
  }

  /** 256 to the power `n`: one more than the largest value `n` bytes hold. */
  function Span(n: nat): nat
    decreases n
  {
    if n == 0 then 1 else 0x100 * Span(n - 1)
  }

  /** The `n` low-order bytes of `i`, least significant first. */
  function LowBytes(i: nat, n: nat): (b: seq<byte>)
    ensures |b| == n
    decreases n
  {
    if n == 0 then [] else [i % 0x100] + LowBytes(i / 0x100, n - 1)
  }

  /** The value of bytes stored least significant first. */
  function LowValue(b: seq<byte>): (v: nat)
    ensures v < Span(|b|)
    decreases |b|
  {
    if b == [] then 0 else b[0] + 0x100 * LowValue(b[1..])
  }

  lemma {:induction false} LowValueOfLowBytes(i: nat, n: nat)
    requires i < Span(n)
    ensures LowValue(LowBytes(i, n)) == i
    decreases n
  {
    if n > 0 {
      LowValueOfLowBytes(i / 0x100, n - 1);
      assert LowBytes(i, n)[1..] == LowBytes(i / 0x100, n - 1);
    }
  }

  lemma {:induction false} LowBytesOfLowValue(b: seq<byte>)
    ensures LowBytes(LowValue(b), |b|) == b
    decreases |b|
  {
    if b != [] {
      var v := LowValue(b);
      DivModUnique(v, 0x100, LowValue(b[1..]), b[0] as int);
      LowBytesOfLowValue(b[1..]);
    }
  }

  /** `int.to_bytes(4, byteorder)` of an unsigned 32-bit value. */
  function ToBytes(i: uint32, endian: Endian): (b: seq<byte>)
    ensures |b| == 4
  {
    match endian
    case Little => LowBytes(i, 4)
    case Big => Reversed(LowBytes(i, 4))
  }

  /** `int.from_bytes(b, byteorder, signed=False)` of four bytes. */
  function FromBytes(b: seq<byte>, endian: Endian): uint32
    requires |b| == 4
  {
    match endian
    case Little => b[0] as int + 0x100 * b[1] as int + 0x1_0000 * b[2] as int + 0x100_0000 * b[3] as int
    case Big => b[3] as int + 0x100 * b[2] as int + 0x1_0000 * b[1] as int + 0x100_0000 * b[0] as int
  }

  /** Four bytes read least significant first are their `LowValue`. */
  lemma LittleValue(b: seq<byte>)
    requires |b| == 4
    ensures FromBytes(b, Little) == LowValue(b)
  {
    assert b[1..][1..][1..][1..] == [];
    assert LowValue(b[1..][1..][1..]) == b[3];
    assert LowValue(b[1..][1..]) == b[2] as int + 0x100 * b[3] as int;
  }

  /** Four bytes reversed. */
  lemma ReversedFour(b: seq<byte>)
    requires |b| == 4
    ensures Reversed(b) == [b[3], b[2], b[1], b[0]]
  {
    assert b[1..][1..][1..] == [b[3]];
    assert Reversed(b[1..][1..][1..]) == [b[3]];
    assert Reversed(b[1..][1..]) == [b[3], b[2]];
    assert Reversed(b[1..]) == [b[3], b[2], b[1]];
  }

  /** Reading back what was written under the same byte order gives the value. */
  lemma FromToBytes(i: uint32, endian: Endian)
    ensures |ToBytes(i, endian)| == 4 && FromBytes(ToBytes(i, endian), endian) == i
  {
    var low := LowBytes(i, 4);
    assert FromBytes(low, Little) == i by {
      assert Span(4) == 0x1_0000_0000;
      LowValueOfLowBytes(i, 4);
      LittleValue(low);
    }
    ReversedFour(low);
  }

  /** Four bytes are the encoding of the value they decode to: the encoding is onto. */
  lemma ToFromBytes(b: seq<byte>, endian: Endian)
    requires |b| == 4
    ensures ToBytes(FromBytes(b, endian), endian) == b
  {
    match endian
    case Little =>
      LittleValue(b);
      LowBytesOfLowValue(b);
    case Big =>
      var r := Reversed(b);
      assert FromBytes(b, Big) == FromBytes(r, Little) by {
        ReversedFour(b);
      }
      LittleValue(r);
      LowBytesOfLowValue(r);
      ReversedTwice(b);
  }

  /** The number of bytes `align(n)` consumes or emits at position `pos`. */
  function Padding(pos: nat, n: nat): nat
    requires n > 0
  {
    (n - pos % n) % n
  }

  /** Division and remainder are determined by any decomposition `x == q * n + r` with `0 <= r < n`. */
  lemma DivModUnique(x: int, n: int, q: int, r: int)
    requires n > 0 && 0 <= r < n && x == q * n + r
    ensures x / n == q && x % n == r
  {
    var d := x / n - q;
    assert n * d == r - x % n;
    if d > 0 {
      assert false;
    } else if d < 0 {
      assert false;
    }
  }

  /** The next multiple of `n` after a multiple of `n`. */
  lemma MultipleStep(k: nat, n: nat)
    requires n > 0 && k % n == 0
    ensures (k + n) % n == 0
  {
    DivModUnique(k, n, k / n, 0);
    DivModUnique(k + n, n, k / n + 1, 0);
  }

  /** After the last whole word of a transfer, `size % n` bytes remain. */
  lemma LastPartialWord(size: nat, k: nat, n: nat)
    requires n > 0 && k % n == 0 && k <= size < k + n
    ensures size % n == size - k
  {
    DivModUnique(k, n, k / n, 0);
    DivModUnique(size, n, k / n, size - k);
  }

  /** Padding is fewer than `n` bytes and ends on a multiple of `n`. */
  lemma PaddingAligns(pos: nat, n: nat)
    requires n > 0
    ensures Padding(pos, n) < n
    ensures (pos + Padding(pos, n)) % n == 0
  {
    var q, r := pos / n, pos % n;
    if r == 0 {
      DivModUnique(n, n, 1, 0);
    } else {
      DivModUnique(n - r, n, 0, n - r);
      DivModUnique(pos + (n - r), n, q + 1, 0);
    }
  }

  /** No shorter padding reaches a multiple of `n`. */
  lemma PaddingLeast(pos: nat, n: nat, k: nat)
    requires n > 0 && (pos + k) % n == 0
    ensures Padding(pos, n) <= k
  {
    var q, r := pos / n, pos % n;
    if r == 0 {
      DivModUnique(n, n, 1, 0);
    } else {
      DivModUnique(n - r, n, 0, n - r);
      if k < n - r {
        DivModUnique(pos + k, n, q, r + k);
        assert false;
      }
    }
  }

  /** A value read at a position, and the position after it. */
  datatype Step<+T> = Step(value: T, next: nat)

  /** `Reader.bytes(size, wordSize)` at position `pos` of `data`. */
  function BytesAt(data: seq<byte>, pos: nat, size: nat, endian: Endian, wordSize: nat)
    : (r: Result<Step<seq<byte>>, Exception>)
    ensures r.Success? <==> pos + size <= |data|
    ensures r.Success? ==> r.value.next == pos + size && |r.value.value| == size
    ensures r.Failure? ==> r.error == EOFError
  {
    if pos + size <= |data| then Success(Step(Transfer(data[pos..pos + size], endian, wordSize), pos + size))
    else Failure(EOFError)
  }

  /**
   * `Reader.bytes` as binary.py:17-28 is written: the swapped branch hands
   * `bytearray.append` a `reversed` iterator, which it refuses, so every
   * swapped read raises TypeError, whatever the stream holds.
   */
  function BytesAtAsWritten(data: seq<byte>, pos: nat, size: nat, endian: Endian, wordSize: nat)
    : Result<Step<seq<byte>>, Exception>
  {
    if endian == Big && wordSize > 1 then Failure(TypeError) else BytesAt(data, pos, size, endian, wordSize)
  }

  /**
   * The discrepancy: a swapped read of bytes that are there fails as
   * written, where the intended read returns them word-swapped.
   */
  lemma SwappedReadAsWritten(data: seq<byte>, pos: nat, size: nat, wordSize: nat)
    requires wordSize > 1 && pos + size <= |data|
    ensures BytesAtAsWritten(data, pos, size, Big, wordSize) == Failure(TypeError)
    ensures BytesAt(data, pos, size, Big, wordSize) == Success(Step(SwapWords(data[pos..pos + size], wordSize), pos + size))
  {
  }

  /** `Reader.uint32()` at position `pos` of `data`. */
  function Uint32At(data: seq<byte>, pos: nat, endian: Endian): (r: Result<Step<uint32>, Exception>)
    ensures r.Success? <==> pos + 4 <= |data|
    ensures r.Success? ==> r.value.next == pos + 4
    ensures r.Failure? ==> r.error == EOFError
  {
    if pos + 4 <= |data| then Success(Step(FromBytes(data[pos..pos + 4], endian), pos + 4))
    else Failure(EOFError)
  }

  /** `Reader.align(n)` at position `pos` of `data`: the position after the padding. */
  function AlignAt(data: seq<byte>, pos: nat, n: nat): (r: Result<nat, Exception>)
    requires n > 0
    ensures r.Success? <==> pos + Padding(pos, n) <= |data|
    ensures r.Success? ==> pos <= r.value <= |data| && r.value % n == 0
    ensures r.Failure? ==> r.error == EOFError
  {
    PaddingAligns(pos, n);
    if pos + Padding(pos, n) <= |data| then Success(pos + Padding(pos, n)) else Failure(EOFError)
  }

  /** A reader over a stream held as its bytes and its position. */
  class Reader {
    const data: seq<byte>
    var pos: nat
    var endian: Endian

    ghost predicate Valid()
      reads this
    {
      pos <= |data|
    }

    constructor (stream: seq<byte>)
      ensures Valid() && data == stream && pos == 0 && endian == Little
    {
      data := stream;
      pos := 0;
      endian := Little;
    }

    /** `stream.read(n)`: the next `n` bytes, or all that remain when fewer do. */
    method Read(n: nat) returns (chunk: seq<byte>)
      requires Valid()
      modifies this`pos
      ensures Valid()
      ensures pos == Min(old(pos) + n, |data|) && chunk == data[old(pos)..pos]
    {
      var end := Min(pos + n, |data|);
      chunk := data[pos..end];
      pos := end;
    }

    /** `__bool__`: reads one byte and seeks back over it. */
    method HasMore() returns (more: bool)
      requires Valid()
      modifies this`pos
      ensures Valid() && pos == old(pos)
      ensures more <==> pos < |data|
    {
      var b := Read(1);
      if |b| > 0 {
        pos := pos - 1;
        more := true;
      } else {
        more := false;
      }
    }

    /**
     * `bytes(size, wordSize)`: exactly `size` bytes, swapped per word under
     * the big byte order, or EOFError after consuming what remained.
     */
    method Bytes(size: nat, wordSize: nat := 1) returns (r: Result<seq<byte>, Exception>)
      requires Valid()
      modifies this`pos
      ensures Valid()
      ensures match BytesAt(data, old(pos), size, endian, wordSize)
        case Success(st) => r == Success(st.value) && pos == st.next
        case Failure(err) => r == Failure(err) && pos == |data|
    {
      var b: seq<byte>;
      if endian == Big && wordSize > 1 {
        b := ReadWords(size, wordSize);
      } else {
        b := Read(size);
      }
      if |b| != size {
        r := Failure(EOFError);
      } else {
        r := Success(b);
      }
    }

    /** The word-swapping branch of `bytes`: `size / wordSize` words, then the `size % wordSize` left over. */
    method ReadWords(size: nat, wordSize: nat) returns (b: seq<byte>)
      requires Valid() && wordSize > 0
      modifies this`pos
      ensures Valid()
      ensures pos == Min(old(pos) + size, |data|) && |b| == pos - old(pos)
      ensures old(pos) + size <= |data| ==> b == SwapWords(data[old(pos)..old(pos) + size], wordSize)
    {
      var start := pos;
      b := [];
      var consumed := 0;
      // `for _ in range(size // wordSize)`: one pass per whole word
      while consumed + wordSize <= size
        invariant Valid() && consumed <= size && consumed % wordSize == 0
        invariant pos == Min(start + consumed, |data|) && |b| == pos - start
        invariant start + size <= |data| ==> pos == start + consumed
        invariant start + size <= |data| ==>
          SwapWords(data[start..start + size], wordSize) == b + SwapWords(data[start..start + size][consumed..], wordSize)
      {
        var chunk := Read(wordSize);
        if start + size <= |data| {
          ReadWordStep(data, start, size, wordSize, consumed, b, chunk);
        }
        b := b + Reversed(chunk);
        MultipleStep(consumed, wordSize);
        consumed := consumed + wordSize;
      }
      LastPartialWord(size, consumed, wordSize);
      var tail := Read(size % wordSize);
      if start + size <= |data| {
        assert tail == data[start..start + size][consumed..];
        assert SwapWords(tail, wordSize) == Reversed(tail);
      }
      b := b + Reversed(tail);
    }

    /** `uint32()`: four bytes read with wordSize 1, decoded in the reader's byte order. */
    method Uint32() returns (r: Result<uint32, Exception>)
      requires Valid()
      modifies this`pos
      ensures Valid()
      ensures match Uint32At(data, old(pos), endian)
        case Success(st) => r == Success(st.value) && pos == st.next
        case Failure(err) => r == Failure(err) && pos == |data|
    {
      var b :- Bytes(4);
      r := Success(FromBytes(b, endian));
    }

    /** `align(n)`: skips the padding up to the next multiple of `n`, whatever its bytes are. */
    method Align(n: nat) returns (r: Result<(), Exception>)
      requires Valid() && n > 0
      modifies this`pos
      ensures Valid()
      ensures match AlignAt(data, old(pos), n)
        case Success(next) => r == Success(()) && pos == next
        case Failure(err) => r == Failure(err) && pos == |data|
    {
      var padding := (n - pos % n) % n;
      var skipped :- Bytes(padding);
      r := Success(());
    }
  }

  /** A writer that appends to an output stream that starts empty. */
  class Writer {
    /** Everything written so far; its length is the stream position. */
    var out: seq<byte>
    var endian: Endian

    constructor ()
      ensures out == [] && endian == Little
    {
      out := [];
      endian := Little;
    }

    /** `bytes(b, wordSize)`: writes `b`, swapped per word under the big byte order. */
    method Bytes(b: seq<byte>, wordSize: nat := 1)
      modifies this`out
      ensures out == old(out) + Transfer(b, endian, wordSize)
    {
      if endian == Big && wordSize > 1 {
        var i := 0;
        while i < |b|
          invariant old(out) + SwapWords(b, wordSize) == out + SwapWords(b[Min(i, |b|)..], wordSize)
        {
          var end := Min(i + wordSize, |b|);
          var rest := b[i..];
          assert b[i..end] == rest[..end - i];
          if |rest| > wordSize {
            assert rest[wordSize..] == b[Min(i + wordSize, |b|)..];
          } else {
            assert rest == b[i..end];
            assert b[Min(i + wordSize, |b|)..] == [];
          }
          out := out + Reversed(b[i..end]);
          i := i + wordSize;
        }
        assert b[Min(i, |b|)..] == [];
      } else {
        out := out + b;
      }
    }

    /** `uint32(i)`: the four bytes of `i` in the writer's byte order. */
    method Uint32(i: uint32)
      modifies this`out
      ensures out == old(out) + ToBytes(i, endian)
    {
      Bytes(ToBytes(i, endian));
    }

    /** `align(n)`: zero bytes up to the next multiple of `n`. */
    method Align(n: nat)
      requires n > 0
      modifies this`out
      ensures out == old(out) + Zeros(Padding(|old(out)|, n))
      ensures |out| % n == 0
    {
      PaddingAligns(|out|, n);
      var padding := (n - |out| % n) % n;
      Bytes(Zeros(padding));
    }
  }
}
