/** Bytes and the big-endian integer layout used on the wire.
    Go's `byte`, `uint16` and `uint32` are modelled by the bit-vector types
    of the same width, so shifts drop bits exactly as in Go. A narrowing `as`
    is checked in Dafny rather than truncating, so each byte is first shifted
    down and masked with `& 0xFF` before it is narrowed. */
module Bytes {

  type Byte = bv8

  /** Go's byte(n) for a value known to fit in a byte. */
  function AsByte(n: nat): Byte
    requires n < 256
  {
    n as Byte
  }

  /** The four bytes of `x`, most significant first (Go's binary.BigEndian.PutUint32). */
  function U32ToBE(x: bv32): (r: seq<Byte>)
    ensures |r| == 4
    ensures BEToU32(r) == x
  {
    [(x >> 24) as Byte, ((x >> 16) & 0xFF) as Byte, ((x >> 8) & 0xFF) as Byte, (x & 0xFF) as Byte]
  }

  /** The two bytes of `x`, most significant first (Go's binary.BigEndian.PutUint16). */
  function U16ToBE(x: bv16): (r: seq<Byte>)
    ensures |r| == 2
    ensures BEToU16(r) == x
  {
    [(x >> 8) as Byte, (x & 0xFF) as Byte]
  }

  /** Go's binary.BigEndian.Uint32 applied to a four-byte slice. */
  function BEToU32(b: seq<Byte>): bv32
    requires |b| == 4
  {
    ((b[0] as bv32) << 24) | ((b[1] as bv32) << 16) | ((b[2] as bv32) << 8) | (b[3] as bv32)
  }

  /** Go's binary.BigEndian.Uint16 applied to a two-byte slice. */
  function BEToU16(b: seq<Byte>): bv16
    requires |b| == 2
  {
    ((b[0] as bv16) << 8) | (b[1] as bv16)
  }

  /** Reading four bytes back is injective: equal values come only from equal bytes. */
  lemma BEToU32Injective(a: seq<Byte>, b: seq<Byte>)
    requires |a| == 4 && |b| == 4
    ensures BEToU32(a) == BEToU32(b) <==> a == b
  {
    if BEToU32(a) == BEToU32(b) {
      assert a[0] == b[0] && a[1] == b[1] && a[2] == b[2] && a[3] == b[3];
    }
  }
}
