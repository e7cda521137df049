/** Little-endian bytes and small sequence facts shared by the other modules. */
module Bytes {

  type byte = x: int | 0 <= x < 0x100
  type u16 = x: int | 0 <= x < 0x1_0000

  datatype Option<+T> = None | Some(value: T)

  function Min(a: int, b: int): int {
    if a <= b then a else b
  }

  /** The 16-bit little-endian read `rd16` of the Bluetooth sources. */
  function Rd16(s: seq<byte>, i: nat): u16
    requires i + 1 < |s|
  {
    var lo: int, hi: int := s[i], s[i + 1];
    lo + 0x100 * hi
  }

  /** The 16-bit little-endian write: low byte first. */
  function Le16(v: u16): (s: seq<byte>)
    ensures |s| == 2 && Rd16(s, 0) == v
  {
    [v % 0x100, v / 0x100]
  }

  function Flatten<T>(ss: seq<seq<T>>): seq<T> {
    if ss == [] then [] else ss[0] + Flatten(ss[1..])
  }
}
