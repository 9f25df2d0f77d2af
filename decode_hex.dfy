/** util/decode-hex.js: hexadecimal text to a `Uint8Array`, one byte per pair of characters. */
module HexDecoding {
  import opened HexEncoding

  /** A digit in radix 16, in either case. */
  predicate IsHexDigit(c: char)
  {
    '0' <= c <= '9' || 'a' <= c <= 'f' || 'A' <= c <= 'F'
  }

  /** The value of a radix-16 digit. */
  function DigitValue(c: char): (d: nat)
    requires IsHexDigit(c)
    ensures d < 16
  {
    if '0' <= c <= '9' then c as int - '0' as int
    else if 'a' <= c <= 'f' then c as int - 'a' as int + 10
    else c as int - 'A' as int + 10
  }

  /** ECMAScript's StrWhiteSpaceChar (WhiteSpace and LineTerminator), which `parseInt` skips
      at the start of its argument. */
  predicate IsStrWhiteSpace(c: char)
  {
    c == '\t' || c == '\n' || c == '\U{000B}' || c == '\U{000C}' || c == '\r' || c == ' '
    || c == '\U{00A0}' || c == '\U{1680}' || '\U{2000}' <= c <= '\U{200A}'
    || c == '\U{2028}' || c == '\U{2029}' || c == '\U{202F}' || c == '\U{205F}'
    || c == '\U{3000}' || c == '\U{FEFF}'
  }

  /** `parseInt(c0 + c1, 16)` stored into a `Uint8Array` element: leading white space and one
      sign are skipped, the longest run of digits is read, no digits at all gives NaN, which
      the store turns into 0, and a negative value is reduced modulo 256. A "0x" prefix leaves
      no digits, as does a lone "0" followed by "x", so both paths give 0. */
  function ParseHexPair(c0: char, c1: char): (b: uint8)
    ensures !IsHexDigit(c0) && !IsHexDigit(c1) ==> b == 0
    ensures b >= 16 ==> (IsHexDigit(c0) && IsHexDigit(c1)) || c0 == '-'
  {
    if IsHexDigit(c0) then
      if IsHexDigit(c1) then 16 * DigitValue(c0) + DigitValue(c1) else DigitValue(c0)
    else if IsStrWhiteSpace(c0) || c0 == '+' then
      if IsHexDigit(c1) then DigitValue(c1) else 0
    else if c0 == '-' then
      if IsHexDigit(c1) then (-(DigitValue(c1) as int)) % 0x100 else 0
    else
      0
  }

  /** The bytes decodeHex produces: `floor(|hex| / 2)` of them, byte `i` read from
      characters `2i` and `2i + 1`. */
  function Decoded(hex: string): (r: seq<uint8>)
    ensures |r| == |hex| / 2
    ensures forall i :: 0 <= i < |r| && IsHexDigit(hex[2 * i]) && IsHexDigit(hex[2 * i + 1]) ==>
      r[i] == 16 * DigitValue(hex[2 * i]) + DigitValue(hex[2 * i + 1])
  {
    seq(|hex| / 2, i requires 0 <= i < |hex| / 2 => ParseHexPair(hex[2 * i], hex[2 * i + 1]))
  }

  /** decodeHex: allocates `hex.length >>> 1` bytes and fills them pair by pair. */
  method DecodeHex(hex: string) returns (bytes: array<uint8>)
    ensures fresh(bytes)
    ensures bytes[..] == Decoded(hex)
  {
    bytes := new uint8[|hex| / 2];
    for i := 0 to bytes.Length
      invariant forall j :: 0 <= j < i ==> bytes[j] == ParseHexPair(hex[2 * j], hex[2 * j + 1])
    {
      bytes[i] := ParseHexPair(hex[2 * i], hex[2 * i + 1]);
    }
  }

  /** Decoding never fails and ignores a trailing odd character. */
  lemma DecodedLength(hex: string)
    ensures |Decoded(hex)| == |hex| / 2
    ensures |hex| % 2 == 1 ==> Decoded(hex) == Decoded(hex[..|hex| - 1])
  {
  }

  /** Byte `i` depends on characters `2i` and `2i + 1` only. */
  lemma DecodedIsLocal(hex: string, other: string, i: nat)
    requires i < |hex| / 2 && i < |other| / 2
    requires hex[2 * i] == other[2 * i] && hex[2 * i + 1] == other[2 * i + 1]
    ensures Decoded(hex)[i] == Decoded(other)[i]
  {
  }

  /** A pair of hex digits, in either case, decodes to `16 * hi + lo`. */
  lemma DecodesHexDigitPair(hi: char, lo: char)
    requires IsHexDigit(hi) && IsHexDigit(lo)
    ensures ParseHexPair(hi, lo) == 16 * DigitValue(hi) + DigitValue(lo)
  {
  }

  /** Decoding reads back the digit that encoding wrote. */
  lemma DigitValueOfHexDigit(d: nat)
    requires d < 16
    ensures IsHexDigit(HexDigit(d)) && DigitValue(HexDigit(d)) == d
  {
    assert LowerHexDigits == ['0', '1', '2', '3', '4', '5', '6', '7', '8', '9', 'a', 'b', 'c', 'd', 'e', 'f'];
  }

  /** Round trip: decoding an encoding gives back every byte, for any input including the
      empty one. */
  lemma RoundTrip(bytes: seq<uint8>)
    ensures Decoded(EncodeHex(bytes)) == bytes
  {
    var hex := EncodeHex(bytes);
    forall i | 0 <= i < |bytes|
      ensures Decoded(hex)[i] == bytes[i]
    {
      var hi, lo := HexDigit(bytes[i] / 16), HexDigit(bytes[i] % 16);
      EncodeHexAt(bytes, i);
      assert hex[2 * i] == hi && hex[2 * i + 1] == lo;
      DigitValueOfHexDigit(bytes[i] / 16);
      DigitValueOfHexDigit(bytes[i] % 16);
      DecodesHexDigitPair(hi, lo);
      assert Decoded(hex)[i] == ParseHexPair(hi, lo);
    }
  }
}
