/**
 * The percent escaping of ktxjuggle/binary.py (pctEncode, pctDecode), which
 * puts identifier and metadata bytes into JSON text.
 *
 * Encoding and Decoding are the specification functions. PctEncode and
 * PctDecode are the source's loops, proved equal to them.
 */
module Percent {
  import opened Base

  /** A byte `pctEncode` may write as itself: printable ASCII except `%`, `"` and `\`. */
  predicate IsLiteral(b: byte) {
    0x20 <= b <= 0x7E && b != '%' as int && b != '"' as int && b != '\\' as int
  }

  /** A character `pctDecode` accepts as a literal byte: printable ASCII. */
  predicate IsPrintable(c: char) {
    0x20 <= c as int <= 0x7E
  }

  /** The upper-case hexadecimal digit of `d`, as `format(b, '02X')` writes it. */
  function HexDigit(d: nat): char
    requires d < 16
  {
    if d < 10 then ('0' as int + d) as char else ('A' as int + d - 10) as char
  }

  /** `%XX`: a byte as two upper-case hexadecimal digits. */
  function Escape(b: byte): string {
    ['%', HexDigit(b / 16), HexDigit(b % 16)]
  }

  function EncodeByte(b: byte, allowPrintable: bool): string {
    if allowPrintable && IsLiteral(b) then [b as char] else Escape(b)
  }

  /** `pctEncode(binary, allowPrintable)`: each byte in turn, as itself or escaped. */
  function Encoding(binary: seq<byte>, allowPrintable: bool): string
    decreases |binary|
  {
    if binary == [] then "" else EncodeByte(binary[0], allowPrintable) + Encoding(binary[1..], allowPrintable)
  }

  lemma {:induction false} EncodingSnoc(binary: seq<byte>, i: nat, allowPrintable: bool)
    requires i < |binary|
    ensures Encoding(binary[..i + 1], allowPrintable)
         == Encoding(binary[..i], allowPrintable) + EncodeByte(binary[i], allowPrintable)
    decreases i
  {
    if i == 0 {
      assert binary[..1][1..] == [];
    } else {
      var t := binary[1..];
      EncodingSnoc(t, i - 1, allowPrintable);
      assert binary[..i + 1][1..] == t[..i];
      assert binary[..i][1..] == t[..i - 1];
      assert binary[..i + 1][0] == binary[..i][0] == binary[0];
    }
  }

  /** The loop of `pctEncode`, accumulating the escaped string byte by byte. */
  method PctEncode(binary: seq<byte>, allowPrintable: bool := true) returns (s: string)
    ensures s == Encoding(binary, allowPrintable)
  {
    s := "";
    for i := 0 to |binary|
      invariant s == Encoding(binary[..i], allowPrintable)
    {
      EncodingSnoc(binary, i, allowPrintable);
      if allowPrintable && IsLiteral(binary[i]) {
        s := s + [binary[i] as char];
      } else {
        s := s + Escape(binary[i]);
      }
    }
    assert binary[..|binary|] == binary;
  }

  /** Each byte becomes one or three characters; three each when nothing may stay literal. */
  lemma {:induction false} EncodingLength(binary: seq<byte>, allowPrintable: bool)
    ensures |binary| <= |Encoding(binary, allowPrintable)| <= 3 * |binary|
    ensures !allowPrintable ==> |Encoding(binary, allowPrintable)| == 3 * |binary|
    decreases |binary|
  {
    if binary != [] {
      EncodingLength(binary[1..], allowPrintable);
    }
  }

  /** The encoding is printable ASCII without `"` or `\`, so it can stand inside a JSON string as it is. */
  lemma {:induction false} EncodingIsPlainText(binary: seq<byte>, allowPrintable: bool)
    ensures forall c :: c in Encoding(binary, allowPrintable) ==> IsPrintable(c) && c != '"' && c != '\\'
    decreases |binary|
  {
    if binary != [] {
      EncodingIsPlainText(binary[1..], allowPrintable);
      var b := binary[0];
      assert Encoding(binary, allowPrintable) == EncodeByte(b, allowPrintable) + Encoding(binary[1..], allowPrintable);
    }
  }

  /**
   * The whitespace Python's `int()` strips around its digits: the ASCII
   * characters tab, line feed, vertical tab, form feed, carriage return and
   * space, and the non-ASCII characters for which str.isspace() holds (these
   * are turned into a space before parsing). The ASCII separators U+001C to
   * U+001F are left in place, so they make the literal invalid.
   */
  predicate IsSpace(c: char) {
    var x := c as int;
    (0x09 <= x <= 0x0D) || x == 0x20 || x == 0x85 || x == 0xA0 || x == 0x1680
    || (0x2000 <= x <= 0x200A) || x == 0x2028 || x == 0x2029 || x == 0x202F || x == 0x205F || x == 0x3000
  }

  function StripLeft(t: string): (u: string)
    ensures |u| <= |t|
  {
    if t != [] && IsSpace(t[0]) then StripLeft(t[1..]) else t
  }

  function StripRight(t: string): (u: string)
    ensures |u| <= |t|
  {
    if t != [] && IsSpace(t[|t| - 1]) then StripRight(t[..|t| - 1]) else t
  }

  /** The value of one hexadecimal digit, in either case. */
  function DigitValue(c: char): Option<nat> {
    if '0' <= c <= '9' then Some(c as int - '0' as int)
    else if 'A' <= c <= 'F' then Some(c as int - 'A' as int + 10)
    else if 'a' <= c <= 'f' then Some(c as int - 'a' as int + 10)
    else None
  }

  /**
   * `int(t, 16)` for the at most two characters after a `%`: surrounding
   * whitespace, an optional sign, then hexadecimal digits. With two
   * characters at most, neither an underscore between digits nor a `0x`
   * prefix can be part of a valid literal.
   */
  function ParseHex(t: string): Option<int>
    requires |t| <= 2
  {
    var u := StripRight(StripLeft(t));
    if |u| == 2 && (u[0] == '+' || u[0] == '-') then
      match DigitValue(u[1])
      case None => None
      case Some(d) => Some(if u[0] == '-' then -(d as int) else d as int)
    else if |u| == 1 then
      DigitValue(u[0])
    else if |u| == 2 && DigitValue(u[0]).Some? && DigitValue(u[1]).Some? then
      Some(16 * DigitValue(u[0]).value + DigitValue(u[1]).value)
    else None
  }

  /** The byte an escape stands for: `bytearray.append` refuses a negative value. */
  function EscapeValue(t: string): Option<byte>
    requires |t| <= 2
  {
    match ParseHex(t)
    case Some(v) => if 0 <= v < 0x100 then Some(v) else None
    case None => None
  }

  function Prepend(b: seq<byte>, r: Result<seq<byte>, Exception>): Result<seq<byte>, Exception> {
    match r
    case Success(rest) => Success(b + rest)
    case Failure(e) => r
  }

  /**
   * `pctDecode(string)`: `%` and the (up to) two characters after it, or one
   * printable character; anything else is a ValueError.
   */
  function Decoding(s: string): Result<seq<byte>, Exception>
    decreases |s|
  {
    if s == [] then Success([])
    else if s[0] == '%' then
      match EscapeValue(s[1..Min(3, |s|)])
      case None => Failure(ValueError)
      case Some(v) => Prepend([v], Decoding(s[Min(3, |s|)..]))
    else if IsPrintable(s[0]) then Prepend([s[0] as int], Decoding(s[1..]))
    else Failure(ValueError)
  }

  lemma PrependTwice(a: seq<byte>, b: seq<byte>, r: Result<seq<byte>, Exception>)
    ensures Prepend(a, Prepend(b, r)) == Prepend(a + b, r)
    ensures Prepend([], r) == r
  {
    if r.Success? {
      assert a + (b + r.value) == (a + b) + r.value;
      assert [] + r.value == r.value;
    }
  }

  /** The loop of `pctDecode`, walking an index through the string. */
  method PctDecode(s: string) returns (r: Result<seq<byte>, Exception>)
    ensures r == Decoding(s)
  {
    var binary: seq<byte> := [];
    var i := 0;
    assert s[Min(i, |s|)..] == s;
    PrependTwice([], [], Decoding(s));
    while i < |s|
      invariant Decoding(s) == Prepend(binary, Decoding(s[Min(i, |s|)..]))
      decreases |s| - i
    {
      var rest := s[i..];
      assert rest == s[Min(i, |s|)..];
      if s[i] == '%' {
        var end := Min(i + 3, |s|);
        assert end - i == Min(3, |rest|);
        assert s[i + 1..end] == rest[1..end - i];
        var v := EscapeValue(s[i + 1..end]);
        if v.None? {
          assert Decoding(rest) == Failure(ValueError);
          return Failure(ValueError);
        }
        assert s[Min(i + 3, |s|)..] == rest[Min(3, |rest|)..];
        PrependTwice(binary, [v.value], Decoding(rest[Min(3, |rest|)..]));
        binary := binary + [v.value];
        i := i + 3;
      } else if 0x20 <= s[i] as int <= 0x7E {
        assert s[Min(i + 1, |s|)..] == rest[1..];
        PrependTwice(binary, [s[i] as int], Decoding(rest[1..]));
        binary := binary + [s[i] as int];
        i := i + 1;
      } else {
        assert Decoding(rest) == Failure(ValueError);
        return Failure(ValueError);
      }
    }
    assert s[Min(i, |s|)..] == [];
    assert binary + [] == binary;
    r := Success(binary);
  }

  /**
   * Around an escape's digits `int(t, 16)` skips a space but not a
   * separator: `"% 5"` is the byte 5, while `"%\x1c5"` and `"%5\x1f"` are
   * a ValueError.
   */
  lemma EscapeWhitespace()
    ensures Decoding(['%', ' ', '5']) == Success([5])
    ensures Decoding(['%', 28 as char, '5']) == Failure(ValueError)
    ensures Decoding(['%', '5', 31 as char]) == Failure(ValueError)
  {
    assert ['%', ' ', '5'][1..3] == [' ', '5'];
    assert [' ', '5'][1..] == ['5'];
    assert StripLeft([' ', '5']) == ['5'];
    assert StripRight(['5']) == ['5'];
    assert EscapeValue([' ', '5']) == Some(5);
    assert ['%', ' ', '5'][3..] == [];
    assert Decoding(['%', ' ', '5']) == Prepend([5], Decoding([]));
    assert [5] + [] == [5];
    assert ['%', 28 as char, '5'][1..3] == [28 as char, '5'];
    assert ['%', '5', 31 as char][1..3] == ['5', 31 as char];
  }

  lemma DecodeEscape(b: byte, rest: string)
    ensures Decoding(Escape(b) + rest) == Prepend([b], Decoding(rest))
  {
    var s := Escape(b) + rest;
    var h, l := HexDigit(b / 16), HexDigit(b % 16);
    assert s[1..3] == [h, l];
    assert s[3..] == rest;
    assert StripLeft([h, l]) == [h, l];
    assert StripRight([h, l]) == [h, l];
    assert DigitValue(h) == Some(b / 16) && DigitValue(l) == Some(b % 16);
  }

  /** Decoding an encoding gives the bytes back, whether or not literals were allowed. */
  lemma {:induction false} DecodeEncode(binary: seq<byte>, allowPrintable: bool)
    ensures Decoding(Encoding(binary, allowPrintable)) == Success(binary)
    decreases |binary|
  {
    if binary != [] {
      var b := binary[0];
      var rest := Encoding(binary[1..], allowPrintable);
      DecodeEncode(binary[1..], allowPrintable);
      if allowPrintable && IsLiteral(b) {
        var s := [b as char] + rest;
        assert s[1..] == rest;
      } else {
        DecodeEscape(b, rest);
      }
      assert [b] + binary[1..] == binary;
    }
  }

  /**
   * Without `%`, a string decodes exactly when every character is printable
   * ASCII, `"` and `\` included, and then to its character codes.
   */
  lemma {:induction false} DecodeLiterals(s: string)
    requires '%' !in s
    ensures Decoding(s).Success? <==> forall c :: c in s ==> IsPrintable(c)
    ensures Decoding(s).Success? ==> Decoding(s).value == seq(|s|, i requires 0 <= i < |s| => s[i] as int)
    decreases |s|
  {
    if s != [] {
      DecodeLiterals(s[1..]);
      assert forall c :: c in s <==> c == s[0] || c in s[1..];
    }
  }
}
