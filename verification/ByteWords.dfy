/** Bytes and the big-endian words of a device tree blob. */
module ByteWords {
  type Byte = b: nat | b < 256

  const WORD: nat := 0x1_0000_0000

  function Get32(m: seq<Byte>, at: nat): (r: nat)
    requires at + 4 <= |m|
    ensures r < WORD
  {
    0x100_0000 * (m[at] as nat) + 0x1_0000 * (m[at + 1] as nat) + 0x100 * (m[at + 2] as nat) + (m[at + 3] as nat)
  }
}
