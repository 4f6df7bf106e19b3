/** Little-endian fields of a blob. */
module Bytes {
  type Byte = b: nat | b < 256

  function Le2(blob: seq<Byte>, at: nat): (v: nat)
    requires at + 2 <= |blob|
    ensures v < 0x1_0000
  {
    var lo: nat, hi: nat := blob[at], blob[at + 1];
    lo + 0x100 * hi
  }

  function Le4(blob: seq<Byte>, at: nat): (v: nat)
    requires at + 4 <= |blob|
    ensures v < 0x1_0000_0000
  {
    Le2(blob, at) + 0x1_0000 * Le2(blob, at + 2)
  }

  function Le8(blob: seq<Byte>, at: nat): (v: nat)
    requires at + 8 <= |blob|
    ensures v < 0x1_0000_0000_0000_0000
  {
    Le4(blob, at) + 0x1_0000_0000 * Le4(blob, at + 4)
  }
}
