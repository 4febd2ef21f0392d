/** Bytes, fixed-width unsigned integers and their little-endian encodings. */
module Bytes {

  type byte = n: int | 0 <= n < 0x100
  type uint16 = n: int | 0 <= n < 0x1_0000
  type uint32 = n: int | 0 <= n < 0x1_0000_0000

  /** The 16-bit little-endian word at offset i. */
  function Le16(s: seq<byte>, i: nat): uint16
    requires i + 2 <= |s|
  {
    s[i] as int + 0x100 * s[i + 1] as int
  }

  /** The 32-bit little-endian word at offset i. */
  function Le32(s: seq<byte>, i: nat): uint32
    requires i + 4 <= |s|
  {
    s[i] as int + 0x100 * s[i + 1] as int + 0x1_0000 * s[i + 2] as int + 0x100_0000 * s[i + 3] as int
  }

  function PutLe16(n: uint16): (s: seq<byte>)
    ensures |s| == 2 && Le16(s, 0) == n
  {
    [n % 0x100, n / 0x100]
  }

  function PutLe32(n: uint32): (s: seq<byte>)
    ensures |s| == 4 && Le32(s, 0) == n
  {
    PutLe16(n % 0x1_0000) + PutLe16(n / 0x1_0000)
  }

  /** The byte at the lowest offset is the lowest one. */
  lemma LowestByteFirst()
    ensures PutLe32(0x0102_0304) == [4, 3, 2, 1] && Le32([4, 3, 2, 1], 0) == 0x0102_0304
    ensures PutLe16(0x0102) == [2, 1] && Le16([2, 1], 0) == 0x0102
  {
  }

  /** Upper case of ASCII letters. */
  function UpperByte(b: byte): byte {
    if 0x61 <= b <= 0x7A then b - 0x20 else b
  }

  function Upper(s: seq<byte>): (r: seq<byte>)
    ensures |r| == |s|
  {
    seq(|s|, i requires 0 <= i < |s| => UpperByte(s[i]))
  }
}
