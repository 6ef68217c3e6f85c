/**
  UTF-8 as used by Rust's `str::from_utf8`, `String::from_utf8` and `OsStr::to_str`:
  a byte sequence is text exactly when it is a concatenation of the well-formed
  byte sequences of table 3-7 of the Unicode Standard (section 3.9).
*/
module Utf8 {
  import opened Wrappers

  newtype byte = x: int | 0 <= x < 256

  /** The digits of the `\xNN` escape, which is upper-case. */
  const UpperDigits: string := "0123456789ABCDEF"

  predicate IsContinuation(b: byte)
  {
    0x80 <= b <= 0xBF
  }

  /** Length of the well-formed sequence at the head of `b`, or 0 when `b` starts with none. */
  function HeadLength(b: seq<byte>): (n: nat)
    ensures n <= 4 && n <= |b|
    ensures n != 0 ==> |b| > 0
  {
    if |b| == 0 then 0
    else if b[0] <= 0x7F then 1
    else if 0xC2 <= b[0] <= 0xDF then
      (if |b| >= 2 && IsContinuation(b[1]) then 2 else 0)
    else if 0xE0 <= b[0] <= 0xEF then
      var lo: byte := if b[0] == 0xE0 then 0xA0 else 0x80;
      var hi: byte := if b[0] == 0xED then 0x9F else 0xBF;
      (if |b| >= 3 && lo <= b[1] <= hi && IsContinuation(b[2]) then 3 else 0)
    else if 0xF0 <= b[0] <= 0xF4 then
      var lo: byte := if b[0] == 0xF0 then 0x90 else 0x80;
      var hi: byte := if b[0] == 0xF4 then 0x8F else 0xBF;
      (if |b| >= 4 && lo <= b[1] <= hi && IsContinuation(b[2]) && IsContinuation(b[3]) then 4 else 0)
    else 0
  }

  /** A Unicode scalar value: what a Dafny (and a Rust) `char` holds. */
  predicate IsScalar(cp: int)
  {
    0 <= cp < 0xD800 || 0xE000 <= cp < 0x11_0000
  }

  /** The number of bytes the shortest encoding of `cp` takes. */
  function EncodedLength(cp: int): nat
  {
    if cp < 0x80 then 1 else if cp < 0x800 then 2 else if cp < 0x1_0000 then 3 else 4
  }

  /** The scalar value encoded by the well-formed sequence at the head of `b`. */
  function HeadScalar(b: seq<byte>): (cp: int)
    requires HeadLength(b) != 0
    ensures IsScalar(cp)
    ensures EncodedLength(cp) == HeadLength(b)
  {
    var n := HeadLength(b);
    if n == 1 then b[0] as int
    else if n == 2 then (b[0] as int - 0xC0) * 64 + (b[1] as int - 0x80)
    else if n == 3 then ((b[0] as int - 0xE0) * 64 + (b[1] as int - 0x80)) * 64 + (b[2] as int - 0x80)
    else (((b[0] as int - 0xF0) * 64 + (b[1] as int - 0x80)) * 64 + (b[2] as int - 0x80)) * 64 + (b[3] as int - 0x80)
  }

  /** The shortest UTF-8 encoding of one character. */
  function EncodeChar(c: char): (r: seq<byte>)
    ensures |r| == EncodedLength(c as int)
  {
    var cp := c as int;
    var q1 := cp / 64;
    var q2 := q1 / 64;
    if cp < 0x80 then [cp as byte]
    else if cp < 0x800 then [(0xC0 + q1) as byte, (0x80 + cp % 64) as byte]
    else if cp < 0x1_0000 then [(0xE0 + q2) as byte, (0x80 + q1 % 64) as byte, (0x80 + cp % 64) as byte]
    else [(0xF0 + q2 / 64) as byte, (0x80 + q2 % 64) as byte, (0x80 + q1 % 64) as byte, (0x80 + cp % 64) as byte]
  }

  /** The UTF-8 encoding of a string (`str::as_bytes`). */
  function Encode(s: string): (r: seq<byte>)
  {
    if s == [] then [] else EncodeChar(s[0]) + Encode(s[1..])
  }

  /** Strict decoding (`String::from_utf8`): `None` unless every byte belongs to a well-formed sequence. */
  function Decode(b: seq<byte>): (r: Option<string>)
    ensures r.Some? ==> |r.value| <= |b| <= 4 * |r.value|
    decreases |b|
  {
    if b == [] then Some([])
    else
      var n := HeadLength(b);
      if n == 0 then None
      else
        match Decode(b[n..])
        case None => None
        case Some(s) => Some([HeadScalar(b) as char] + s)
  }

  /** Whether `b` is valid UTF-8. */
  predicate IsValid(b: seq<byte>)
  {
    Decode(b).Some?
  }

  /** The four characters `\xNN` that stand for one undecodable byte. */
  function EscapedByte(x: byte): string
  {
    ['\\', 'x', UpperDigits[x as int / 16], UpperDigits[x as int % 16]]
  }

  /**
    The text between the quotes of Rust's `Debug` rendering of a byte string
    (`Utf8Chunks`): every well-formed sequence as its character, every byte of
    an ill-formed one escaped as `\xNN`. Valid text is shown as it decodes, and
    anything else shows at least one escape.
  */
  function DebugText(b: seq<byte>): (r: string)
    ensures IsValid(b) ==> r == Decode(b).value
    ensures !IsValid(b) ==> '\\' in r
    decreases |b|
  {
    if b == [] then []
    else
      var n := HeadLength(b);
      if n == 0 then EscapedByte(b[0]) + DebugText(b[1..])
      else [HeadScalar(b) as char] + DebugText(b[n..])
  }

  /** Bytes that are not valid UTF-8 show a `\xNN` escape somewhere in their `Debug` text. */
  lemma {:induction false} DebugTextEscapes(b: seq<byte>)
    requires !IsValid(b)
    ensures exists i :: 0 <= i && i + 4 <= |DebugText(b)| && DebugText(b)[i] == '\\' && DebugText(b)[i + 1] == 'x'
    decreases |b|
  {
    var n := HeadLength(b);
    if n == 0 {
      assert DebugText(b)[0] == '\\' && DebugText(b)[1] == 'x';
    } else {
      DebugTextEscapes(b[n..]);
      var t := DebugText(b[n..]);
      var i :| 0 <= i && i + 4 <= |t| && t[i] == '\\' && t[i + 1] == 'x';
      assert DebugText(b)[i + 1] == '\\' && DebugText(b)[i + 2] == 'x';
    }
  }

  /** Encoding one character and reading it back from the head gives that character. */
  lemma EncodeCharHead(c: char, rest: seq<byte>)
    ensures HeadLength(EncodeChar(c) + rest) == |EncodeChar(c)|
    ensures HeadScalar(EncodeChar(c) + rest) == c as int
  {
  }

  /** A well-formed head sequence is the encoding of the character it decodes to. */
  lemma HeadIsEncoding(b: seq<byte>)
    requires HeadLength(b) != 0
    ensures EncodeChar(HeadScalar(b) as char) == b[..HeadLength(b)]
  {
    var n := HeadLength(b);
    var cp := HeadScalar(b);
    var last := b[n - 1] as int - 0x80;
    if n == 2 {
      DivMod64(b[0] as int - 0xC0, last);
    } else if n == 3 {
      var q1 := (b[0] as int - 0xE0) * 64 + (b[1] as int - 0x80);
      DivMod64(q1, last);
      DivMod64(b[0] as int - 0xE0, b[1] as int - 0x80);
    } else if n == 4 {
      var q2 := (b[0] as int - 0xF0) * 64 + (b[1] as int - 0x80);
      var q1 := q2 * 64 + (b[2] as int - 0x80);
      DivMod64(q1, last);
      DivMod64(q2, b[2] as int - 0x80);
      DivMod64(b[0] as int - 0xF0, b[1] as int - 0x80);
    }
  }

  lemma DivMod64(y: int, x: int)
    requires 0 <= x < 64
    ensures (64 * y + x) / 64 == y && (64 * y + x) % 64 == x
  {
  }

  lemma {:induction false} DecodeEncode(s: string)
    ensures Decode(Encode(s)) == Some(s)
  {
    if s != [] {
      var e := EncodeChar(s[0]);
      EncodeCharHead(s[0], Encode(s[1..]));
      assert (e + Encode(s[1..]))[|e|..] == Encode(s[1..]);
      DecodeEncode(s[1..]);
      assert [s[0]] + s[1..] == s;
    }
  }

  lemma {:induction false} EncodeDecode(b: seq<byte>)
    requires IsValid(b)
    ensures Encode(Decode(b).value) == b
  {
    if b != [] {
      var n := HeadLength(b);
      DecodeCons(b);
      EncodeDecode(b[n..]);
      HeadIsEncoding(b);
      EncodeJoin(b, n, HeadScalar(b) as char, Decode(b[n..]).value);
    }
  }

  lemma EncodeJoin(b: seq<byte>, n: nat, c: char, s: string)
    requires n <= |b| && EncodeChar(c) == b[..n] && Encode(s) == b[n..]
    ensures Encode([c] + s) == b
  {
    EncodeCons(c, s);
    assert b[..n] + b[n..] == b;
  }

  lemma DecodeCons(b: seq<byte>)
    requires IsValid(b) && b != []
    ensures HeadLength(b) != 0 && IsValid(b[HeadLength(b)..])
    ensures Decode(b).value == [HeadScalar(b) as char] + Decode(b[HeadLength(b)..]).value
  {
  }

  lemma EncodeCons(c: char, s: string)
    ensures Encode([c] + s) == EncodeChar(c) + Encode(s)
  {
    assert ([c] + s)[1..] == s;
  }

  /** Valid UTF-8 is exactly what encoding some string can produce. */
  lemma ValidIffEncoding(b: seq<byte>)
    ensures IsValid(b) <==> exists s :: Encode(s) == b
  {
    if IsValid(b) {
      EncodeDecode(b);
    }
    if s :| Encode(s) == b {
      DecodeEncode(s);
    }
  }
}
