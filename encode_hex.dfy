/** util/encode-hex.js: bytes to lower-case hexadecimal text, two digits per byte. */
module HexEncoding {

  /** An element of a `Uint8Array`. */
  type uint8 = x: int | 0 <= x < 0x100

  /** The alphabet `Number.prototype.toString(16)` writes. */
  const LowerHexDigits: string := "0123456789abcdef"

  /** The digit `toString(16)` writes for the value `d`. */
  function HexDigit(d: nat): (c: char)
    requires d < 16
    ensures c in LowerHexDigits
  {
    LowerHexDigits[d]
  }

  /** `n.toString(16)` for a non-negative integer: no leading zeros, "0" for zero. */
  function ToRadix16(n: nat): (s: string)
    ensures 1 <= |s|
    ensures n < 16 <==> |s| == 1
    decreases n
  {
    if n < 16 then [HexDigit(n)] else ToRadix16(n / 16) + [HexDigit(n % 16)]
  }

  /** `s.padStart(targetLength, pad)` with a one-character filler. */
  function PadStart(s: string, targetLength: nat, pad: char): (r: string)
    ensures |r| == if |s| < targetLength then targetLength else |s|
    ensures r[|r| - |s|..] == s
    ensures forall i :: 0 <= i < |r| - |s| ==> r[i] == pad
  {
    if |s| < targetLength then seq(targetLength - |s|, _ => pad) + s else s
  }

  /** encodeByteHex: two lower-case digits, the high nibble first. */
  function EncodeByteHex(b: uint8): (r: string)
    ensures |r| == 2
  {
    [HexDigit(b / 16), HexDigit(b % 16)]
  }

  /** The two nibble digits are exactly what `b.toString(16).padStart(2, '0')` writes:
      a byte below 16 gets one zero of padding, any other byte needs none. */
  lemma EncodeByteHexIsPaddedRadix16(b: uint8)
    ensures EncodeByteHex(b) == PadStart(ToRadix16(b), 2, '0')
  {
    if b >= 16 {
      assert ToRadix16(b) == ToRadix16(b / 16) + [HexDigit(b % 16)];
    }
  }

  /** encodeHex: the per-byte encodings joined with no separator, two characters per byte. */
  function EncodeHex(bytes: seq<uint8>): (r: string)
    ensures |r| == 2 * |bytes|
  {
    if |bytes| == 0 then "" else EncodeByteHex(bytes[0]) + EncodeHex(bytes[1..])
  }

  /** Byte `i` occupies characters `2i` (high nibble) and `2i + 1` (low nibble). */
  lemma {:induction false} EncodeHexAt(bytes: seq<uint8>, i: nat)
    requires i < |bytes|
    ensures EncodeHex(bytes)[2 * i] == HexDigit(bytes[i] / 16)
    ensures EncodeHex(bytes)[2 * i + 1] == HexDigit(bytes[i] % 16)
    decreases i
  {
    var head, tail := EncodeByteHex(bytes[0]), EncodeHex(bytes[1..]);
    assert EncodeHex(bytes) == head + tail;
    if i > 0 {
      EncodeHexAt(bytes[1..], i - 1);
      assert bytes[1..][i - 1] == bytes[i];
      assert EncodeHex(bytes)[2 * i] == tail[2 * (i - 1)];
      assert EncodeHex(bytes)[2 * i + 1] == tail[2 * (i - 1) + 1];
    }
  }

  /** Every character of an encoding is one of 0-9a-f. */
  lemma EncodeHexAlphabet(bytes: seq<uint8>)
    ensures forall k :: 0 <= k < |EncodeHex(bytes)| ==> EncodeHex(bytes)[k] in LowerHexDigits
  {
    var r := EncodeHex(bytes);
    forall k | 0 <= k < |r|
      ensures r[k] in LowerHexDigits
    {
      EncodeHexAt(bytes, k / 2);
    }
  }

  /** Encoding distributes over concatenation; the empty input encodes to "". */
  lemma {:induction false} EncodeHexAppend(a: seq<uint8>, b: seq<uint8>)
    ensures EncodeHex(a + b) == EncodeHex(a) + EncodeHex(b)
    decreases |a|
  {
    if |a| == 0 {
      assert a + b == b;
    } else {
      assert (a + b)[1..] == a[1..] + b;
      EncodeHexAppend(a[1..], b);
    }
  }
}
