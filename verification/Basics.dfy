/** Small datatypes and byte-level helpers shared by the other modules. */
module Basics {

  datatype Option<+T> = None | Some(value: T)

  type byte = b: int | 0 <= b < 256

  /** The values of a __u16. */
  type u16 = n: int | 0 <= n < 0x1_0000

  /** A 16-bit field in the (little-endian) host order, as `memcpy` into a __u16 reads it. */
  function U16(s: seq<byte>, i: nat): u16
    requires i + 2 <= |s|
  {
    var low: int, high: int := s[i], s[i + 1];
    low + 0x100 * high
  }

  /** The bytes of a 16-bit field. */
  function Word(n: u16): (r: seq<byte>)
    ensures |r| == 2 && U16(r, 0) == n
  {
    [n % 0x100, n / 0x100]
  }

  /** A signed 32-bit field in host order. */
  function S32(s: seq<byte>, i: nat): (r: int)
    requires i + 4 <= |s|
  {
    var low: int, high: int := U16(s, i), U16(s, i + 2);
    var u := low + 0x1_0000 * high;
    if u < 0x8000_0000 then u else u - 0x1_0000_0000
  }

  /** A 32-bit unsigned subtraction, wrapping below zero. */
  function Sub32(a: nat, b: nat): nat {
    (a - b) % 0x1_0000_0000
  }

  /** The low byte comes first. */
  lemma LowFirst(low: byte, high: byte)
    ensures Word(low as int + 256 * high as int) == [low, high]
    ensures U16([low, high], 0) == low as int + 256 * high as int
  {
  }
}
