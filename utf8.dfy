/** The byte length Node's `Buffer.byteLength(s, 'utf8')` reports for a string:
    the length of its UTF-8 encoding (RFC 3629, section 3). */
module Utf8 {

  newtype byte = x: int | 0 <= x < 256

  /** Number of bytes UTF-8 uses for one Unicode scalar value, by code-point range. */
  function Width(c: char): (n: nat)
    ensures 1 <= n <= 4
  {
    if c as int < 0x80 then 1
    else if c as int < 0x800 then 2
    else if c as int < 0x1_0000 then 3
    else 4
  }

  /** The UTF-8 encoding of one scalar value: a lead byte followed by
      continuation bytes carrying six bits each. */
  function EncodeChar(c: char): (bs: seq<byte>)
    ensures |bs| == Width(c)
    ensures forall k :: 1 <= k < |bs| ==> IsContinuation(bs[k])
  {
    var x := c as int;
    if x < 0x80 then
      [x as byte]
    else if x < 0x800 then
      [(0xC0 + x / 64) as byte, (0x80 + x % 64) as byte]
    else if x < 0x1_0000 then
      [(0xE0 + x / 4096) as byte, (0x80 + (x / 64) % 64) as byte, (0x80 + x % 64) as byte]
    else
      [(0xF0 + x / 262144) as byte, (0x80 + (x / 4096) % 64) as byte,
       (0x80 + (x / 64) % 64) as byte, (0x80 + x % 64) as byte]
  }

  predicate IsContinuation(b: byte) {
    0x80 <= b < 0xC0
  }

  /** The sequence length a decoder reads off a lead byte. */
  function LeadLength(b: byte): nat {
    if b < 0x80 then 1 else if b < 0xE0 then 2 else if b < 0xF0 then 3 else 4
  }

  /** The scalar value a decoder rebuilds from one encoded sequence. */
  function DecodeScalar(bs: seq<byte>): int
    requires 1 <= |bs| <= 4
  {
    if |bs| == 1 then bs[0] as int
    else if |bs| == 2 then (bs[0] as int - 0xC0) * 64 + (bs[1] as int - 0x80)
    else if |bs| == 3 then
      (bs[0] as int - 0xE0) * 4096 + (bs[1] as int - 0x80) * 64 + (bs[2] as int - 0x80)
    else
      (bs[0] as int - 0xF0) * 262144 + (bs[1] as int - 0x80) * 4096
        + (bs[2] as int - 0x80) * 64 + (bs[3] as int - 0x80)
  }

  function Encode(s: string): (bs: seq<byte>)
    ensures |s| <= |bs| <= 4 * |s|
  {
    if s == [] then [] else Encode(s[..|s| - 1]) + EncodeChar(s[|s| - 1])
  }

  /** `Buffer.byteLength(s, 'utf8')`. */
  function ByteLength(s: string): (n: nat)
    ensures |s| <= n <= 4 * |s|
  {
    |Encode(s)|
  }

  /** Sum of the per-scalar widths. */
  function WidthSum(s: string): nat {
    if s == [] then 0 else WidthSum(s[..|s| - 1]) + Width(s[|s| - 1])
  }

  /** Each encoded scalar is self-describing: its lead byte announces its
      length, and decoding gives back the scalar. */
  lemma EncodeCharDecodes(c: char)
    ensures LeadLength(EncodeChar(c)[0]) == |EncodeChar(c)|
    ensures DecodeScalar(EncodeChar(c)) == c as int
  {
    var x := c as int;
    if x < 0x80 {
    } else if x < 0x800 {
      assert x == (x / 64) * 64 + x % 64;
    } else if x < 0x1_0000 {
      Split64(x / 64);
      assert x == (x / 64) * 64 + x % 64;
      assert x / 4096 == (x / 64) / 64;
    } else {
      Split64(x / 64);
      Split64(x / 4096);
      assert x == (x / 64) * 64 + x % 64;
      assert x / 4096 == (x / 64) / 64;
      assert x / 262144 == (x / 4096) / 64;
    }
  }

  lemma Split64(y: int)
    requires 0 <= y
    ensures y == (y / 64) * 64 + y % 64
  {
  }

  /** The byte length is the sum of the code-point-range widths, so it lies
      between one and four bytes per scalar. */
  lemma {:induction false} ByteLengthByRange(s: string)
    ensures ByteLength(s) == WidthSum(s)
    ensures |s| <= ByteLength(s) <= 4 * |s|
  {
    if s != [] {
      ByteLengthByRange(s[..|s| - 1]);
    }
  }

  /** Byte length is additive over concatenation. */
  lemma {:induction false} ByteLengthAppend(a: string, b: string)
    ensures ByteLength(a + b) == ByteLength(a) + ByteLength(b)
    decreases |b|
  {
    if b == [] {
      assert a + b == a;
    } else {
      assert (a + b)[..|a + b| - 1] == a + b[..|b| - 1];
      ByteLengthAppend(a, b[..|b| - 1]);
    }
  }

  /** An ASCII-only string (every data URI written in base64 or percent-encoding)
      takes exactly one byte per character. */
  lemma {:induction false} AsciiByteLength(s: string)
    requires forall k :: 0 <= k < |s| ==> s[k] as int < 0x80
    ensures ByteLength(s) == |s|
  {
    if s != [] {
      AsciiByteLength(s[..|s| - 1]);
    }
  }
}
