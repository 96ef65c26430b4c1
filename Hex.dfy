/**
 * Bytes and their lowercase hexadecimal encoding (the base 16 encoding of
 * section 8 of RFC 4648, written with the lowercase alphabet, as Go's
 * hex.EncodeToString produces it): each byte becomes two characters, the
 * high nibble first.
 */
module Hex {
  import opened Wrappers

  newtype byte = x: int | 0 <= x < 256
  type Bytes = seq<byte>

  /** The characters of the lowercase hexadecimal alphabet. */
  predicate IsLowerHex(c: char) {
    '0' <= c <= '9' || 'a' <= c <= 'f'
  }

  /** The character for a nibble value. */
  function HexDigit(n: int): (c: char)
    requires 0 <= n < 16
    ensures IsLowerHex(c)
    ensures n < 10 ==> c as int - '0' as int == n
    ensures 10 <= n ==> c as int - 'a' as int == n - 10
  {
    if n < 10 then ('0' as int + n) as char else ('a' as int + n - 10) as char
  }

  /** The nibble value of a lowercase hexadecimal character: the inverse of HexDigit. */
  function DigitValue(c: char): (n: int)
    requires IsLowerHex(c)
    ensures 0 <= n < 16 && HexDigit(n) == c
  {
    if c <= '9' then c as int - '0' as int else c as int - 'a' as int + 10
  }

  /** The encoding of a byte sequence, two characters per byte. */
  function HexEncode(d: Bytes): (s: string)
    ensures |s| == 2 * |d|
    ensures forall i :: 0 <= i < |s| ==> IsLowerHex(s[i])
  {
    if d == [] then []
    else [HexDigit(d[0] as int / 16), HexDigit(d[0] as int % 16)] + HexEncode(d[1..])
  }

  /** Decoding of a lowercase hexadecimal string; None for an odd length or a character outside the alphabet. */
  function HexDecode(s: string): (r: Option<Bytes>)
    ensures r.Some? ==> 2 * |r.value| == |s|
  {
    if s == [] then Some([])
    else if |s| == 1 || !IsLowerHex(s[0]) || !IsLowerHex(s[1]) then None
    else match HexDecode(s[2..])
      case None => None
      case Some(rest) => Some([(DigitValue(s[0]) * 16 + DigitValue(s[1])) as byte] + rest)
  }

  /** Byte i of the input is written at positions 2i (high nibble) and 2i+1 (low nibble). */
  lemma {:induction false} HexEncodeAt(d: Bytes, i: int)
    requires 0 <= i < |d|
    ensures HexEncode(d)[2 * i] == HexDigit(d[i] as int / 16)
    ensures HexEncode(d)[2 * i + 1] == HexDigit(d[i] as int % 16)
  {
    if i > 0 {
      HexEncodeAt(d[1..], i - 1);
    }
  }

  /** Decoding undoes encoding. */
  lemma {:induction false} HexRoundTrip(d: Bytes)
    ensures HexDecode(HexEncode(d)) == Some(d)
  {
    if d != [] {
      var s := HexEncode(d);
      var hi, lo := d[0] as int / 16, d[0] as int % 16;
      assert s[0] == HexDigit(hi) && s[1] == HexDigit(lo);
      assert s[2..] == HexEncode(d[1..]);
      HexRoundTrip(d[1..]);
      assert DigitValue(s[0]) == hi && DigitValue(s[1]) == lo;
      assert d == [d[0]] + d[1..];
    }
  }

  /** Encoding undoes a successful decoding: the decoder accepts exactly the encoder's outputs. */
  lemma {:induction false} HexDecodeEncode(s: string)
    ensures HexDecode(s).Some? ==> HexEncode(HexDecode(s).value) == s
  {
    if s != [] && HexDecode(s).Some? {
      HexDecodeEncode(s[2..]);
      var b := HexDecode(s).value;
      var v := DigitValue(s[0]) * 16 + DigitValue(s[1]);
      assert b[0] as int == v;
      assert b[1..] == HexDecode(s[2..]).value;
      assert v / 16 == DigitValue(s[0]) && v % 16 == DigitValue(s[1]);
      assert s == [s[0], s[1]] + s[2..];
    }
  }

  /** Distinct byte sequences have distinct encodings. */
  lemma HexInjective(a: Bytes, b: Bytes)
    ensures HexEncode(a) == HexEncode(b) ==> a == b
  {
    HexRoundTrip(a);
    HexRoundTrip(b);
  }
}
