/** Byte-level helpers shared by the render cache and the fuzzy matcher:
    unsigned bytes, little-endian layout of C integers, and the UTF-8 length and
    encoding of Rust `&str` / C strings. */
module Bytes {

  type byte = x: int | 0 <= x < 256

  /** The four bytes of a 32-bit C integer in memory (x86, little-endian); a
      negative `c_int` is stored in two's complement, i.e. modulo 2^32. */
  function Le32(v: int): (bs: seq<byte>)
    ensures |bs| == 4
  {
    var u := v % 0x1_0000_0000;
    [u % 256, (u / 256) % 256, (u / 65536) % 256, u / 16777216]
  }

  /** The eight bytes of a 64-bit value (a pointer) in memory. */
  function Le64(v: int): (bs: seq<byte>)
    ensures |bs| == 8
  {
    var u := v % 0x1_0000_0000_0000_0000;
    Le32(u % 0x1_0000_0000) + Le32(u / 0x1_0000_0000)
  }

  /** Number of bytes UTF-8 uses for one Unicode scalar value. */
  function CharLength(c: char): (n: int)
    ensures 1 <= n <= 4
    ensures n == 1 <==> c as int < 0x80
  {
    var v := c as int;
    if v < 0x80 then 1 else if v < 0x800 then 2 else if v < 0x10000 then 3 else 4
  }

  /** UTF-8 encoding of one scalar value: a lead byte announcing the length and
      continuation bytes of the form 10xxxxxx. */
  function EncodeChar(c: char): (bs: seq<byte>)
    ensures |bs| == CharLength(c)
    ensures bs[0] < 0x80 <==> |bs| == 1
    ensures forall k :: 1 <= k < |bs| ==> 0x80 <= bs[k] < 0xC0
  {
    var v := c as int;
    if v < 0x80 then [v]
    else if v < 0x800 then [0xC0 + v / 64, 0x80 + v % 64]
    else if v < 0x10000 then [0xE0 + v / 4096, 0x80 + (v / 64) % 64, 0x80 + v % 64]
    else [0xF0 + v / 262144, 0x80 + (v / 4096) % 64, 0x80 + (v / 64) % 64, 0x80 + v % 64]
  }

  /** The bytes of a string, as `str.as_bytes()` / the C string's bytes before its NUL. */
  function Encode(s: seq<char>): (bs: seq<byte>)
  {
    if s == [] then [] else Encode(s[..|s| - 1]) + EncodeChar(s[|s| - 1])
  }

  /** `str.len()` / `strlen`: the number of bytes of the string, not of characters. */
  function ByteLength(s: seq<char>): (n: int)
  {
    if s == [] then 0 else ByteLength(s[..|s| - 1]) + CharLength(s[|s| - 1])
  }

  lemma {:induction false} EncodeLength(s: seq<char>)
    ensures |Encode(s)| == ByteLength(s)
    ensures |s| <= ByteLength(s) <= 4 * |s|
  {
    if s != [] {
      EncodeLength(s[..|s| - 1]);
    }
  }

  lemma {:induction false} ByteLengthAppend(a: seq<char>, b: seq<char>)
    ensures ByteLength(a + b) == ByteLength(a) + ByteLength(b)
    decreases |b|
  {
    if b == [] {
      assert a + b == a;
    } else {
      assert (a + b)[..|a + b| - 1] == a + b[..|b| - 1];
      ByteLengthAppend(a, b[..|b| - 1]);
    }
  }
}
