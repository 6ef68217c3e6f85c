/** The `{:x}` rendering of a digest: two lower-case hexadecimal digits per byte, most significant first. */
module LowerHex {
  import opened Wrappers
  import opened Utf8

  const Digits: string := "0123456789abcdef"

  predicate IsDigit(c: char)
  {
    '0' <= c <= '9' || 'a' <= c <= 'f'
  }

  predicate IsHexString(s: string)
  {
    forall i :: 0 <= i < |s| ==> IsDigit(s[i])
  }

  function Hex(d: seq<byte>): (r: string)
    ensures |r| == 2 * |d|
    ensures IsHexString(r)
  {
    if d == [] then []
    else [Digits[d[0] as int / 16], Digits[d[0] as int % 16]] + Hex(d[1..])
  }

  /** The value of one hexadecimal digit. */
  function DigitValue(c: char): (v: nat)
    requires IsDigit(c)
    ensures v < 16 && Digits[v] == c
  {
    if c <= '9' then c as int - '0' as int else c as int - 'a' as int + 10
  }

  /** Reading hexadecimal text back into bytes; `None` for an odd length or a non-digit. */
  function Unhex(s: string): (r: Option<seq<byte>>)
    ensures r.Some? ==> 2 * |r.value| == |s|
  {
    if s == [] then Some([])
    else if |s| < 2 || !IsDigit(s[0]) || !IsDigit(s[1]) then None
    else
      match Unhex(s[2..])
      case None => None
      case Some(rest) => Some([(DigitValue(s[0]) * 16 + DigitValue(s[1])) as byte] + rest)
  }

  lemma DigitRoundTrip(k: nat)
    requires k < 16
    ensures IsDigit(Digits[k]) && DigitValue(Digits[k]) == k
  {
  }

  /** The rendering loses nothing: the digest can be read back from it. */
  lemma {:induction false} UnhexHex(d: seq<byte>)
    ensures Unhex(Hex(d)) == Some(d)
  {
    if d != [] {
      var b := d[0] as int;
      DigitRoundTrip(b / 16);
      DigitRoundTrip(b % 16);
      var h := Hex(d);
      assert h[2..] == Hex(d[1..]);
      UnhexHex(d[1..]);
      assert [d[0]] + d[1..] == d;
    }
  }

  /** Distinct digests render as distinct text. */
  lemma HexInjective(d1: seq<byte>, d2: seq<byte>)
    ensures Hex(d1) == Hex(d2) <==> d1 == d2
  {
    UnhexHex(d1);
    UnhexHex(d2);
  }
}
