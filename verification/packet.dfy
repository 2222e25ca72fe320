/** The 48-byte time packet of the sender (main.go): its fields, the magic
    constants, its big-endian serialisation and the two packets the sender builds. */
module Packet {
  import opened Bytes

  const HDR1: bv32 := 0x2381D765
  const HDR2: bv32 := 0x10B32FE1
  const FAMILY: bv32 := 0x00000080

  /** Device identifier both packet builders use. */
  const DEVICE_ID: bv16 := 0x1234

  /** Control codes: a live time broadcast and the end-of-session sentinel. */
  const CTRL_TIME: Byte := 0x02
  const CTRL_END: Byte := 0x00

  /** The sum of the twelve field sizes, 4+4+2+2+4+3+1+24+1+1+1+1. */
  const PacketSize: nat := 4 + 4 + 2 + 2 + 4 + 3 + 1 + 24 + 1 + 1 + 1 + 1

  type Bytes3 = s: seq<Byte> | |s| == 3 witness [0, 0, 0]
  type Bytes24 = s: seq<Byte> | |s| == 24 witness seq(24, _ => 0)

  /** The TimePacket struct, field for field in declaration order. */
  datatype TimePacket = TimePacket(
    hdr1: bv32,
    hdr2: bv32,
    rsrv1: bv16,
    device: bv16,
    family: bv32,
    rsrv2: Bytes3,
    zeros: Byte,
    rsrv3: Bytes24,
    ctrlCode: Byte,
    h: Byte,
    m: Byte,
    s: Byte)

  /** binary.Write of the struct in big-endian order: each field in
      declaration order, with no padding. The values of the reserved fields
      are written as the struct holds them. */
  function Encode(p: TimePacket): (r: seq<Byte>)
    ensures |r| == PacketSize
  {
    U32ToBE(p.hdr1) + U32ToBE(p.hdr2) + U16ToBE(p.rsrv1) + U16ToBE(p.device) + U32ToBE(p.family)
    + p.rsrv2 + [p.zeros] + p.rsrv3 + [p.ctrlCode, p.h, p.m, p.s]
  }

  /** Where the pieces of a concatenation of the struct's field sizes land. */
  lemma SliceLayout(w1: seq<Byte>, w2: seq<Byte>, v1: seq<Byte>, v2: seq<Byte>, w3: seq<Byte>,
                    r2: seq<Byte>, z: Byte, r3: seq<Byte>, t: seq<Byte>)
    requires |w1| == 4 && |w2| == 4 && |v1| == 2 && |v2| == 2 && |w3| == 4
    requires |r2| == 3 && |r3| == 24 && |t| == 4
    ensures var r := w1 + w2 + v1 + v2 + w3 + r2 + [z] + r3 + t;
      && r[0..4] == w1 && r[4..8] == w2 && r[8..10] == v1 && r[10..12] == v2
      && r[12..16] == w3 && r[16..19] == r2 && r[19] == z && r[20..44] == r3
      && r[44] == t[0] && r[45] == t[1] && r[46] == t[2] && r[47] == t[3]
  {
    var a := w1 + w2 + v1 + v2 + w3;
    var b := r2 + [z] + r3;
    var r := w1 + w2 + v1 + v2 + w3 + r2 + [z] + r3 + t;
    assert r == a + b + t;
    assert r[0..16] == a && r[16..44] == b && r[44..48] == t;
  }

  /** Where each field lands in the 48 encoded bytes. */
  lemma EncodeLayout(p: TimePacket)
    ensures var r := Encode(p);
      && r[0..4] == U32ToBE(p.hdr1)
      && r[4..8] == U32ToBE(p.hdr2)
      && r[8..10] == U16ToBE(p.rsrv1)
      && r[10..12] == U16ToBE(p.device)
      && r[12..16] == U32ToBE(p.family)
      && r[16..19] == p.rsrv2
      && r[19] == p.zeros
      && r[20..44] == p.rsrv3
      && r[44] == p.ctrlCode
      && r[45] == p.h && r[46] == p.m && r[47] == p.s
  {
    SliceLayout(U32ToBE(p.hdr1), U32ToBE(p.hdr2), U16ToBE(p.rsrv1), U16ToBE(p.device), U32ToBE(p.family),
                p.rsrv2, p.zeros, p.rsrv3, [p.ctrlCode, p.h, p.m, p.s]);
  }

  /** Encoding loses nothing: distinct packets give distinct byte strings. */
  lemma EncodeInjective(p: TimePacket, q: TimePacket)
    ensures Encode(p) == Encode(q) <==> p == q
  {
    if Encode(p) == Encode(q) {
      EncodeLayout(p);
      EncodeLayout(q);
      assert U32ToBE(p.hdr1) == U32ToBE(q.hdr1);
      assert U32ToBE(p.hdr2) == U32ToBE(q.hdr2);
      assert U16ToBE(p.rsrv1) == U16ToBE(q.rsrv1);
      assert U16ToBE(p.device) == U16ToBE(q.device);
      assert U32ToBE(p.family) == U32ToBE(q.family);
    }
  }

  /** The packet the ticker loop builds for the current hour, minute and second. */
  function RegularPacket(h: Byte, m: Byte, s: Byte): TimePacket
  {
    TimePacket(HDR1, HDR2, 0, DEVICE_ID, FAMILY, [0, 0, 0], 0x00, seq(24, _ => 0), CTRL_TIME, h, m, s)
  }

  /** The packet the termination handler builds to end the session. */
  function SentinelPacket(): TimePacket
  {
    TimePacket(HDR1, HDR2, 0, DEVICE_ID, FAMILY, [0, 0, 0], 0x00, seq(24, _ => 0), CTRL_END, 0, 0, 0)
  }

  /** The header fields every packet of a conformant sender carries. */
  predicate HasMagic(p: TimePacket)
  {
    p.hdr1 == HDR1 && p.hdr2 == HDR2 && p.family == FAMILY
  }

  /** The reserved fields are all zero. */
  predicate ReservedZero(p: TimePacket)
  {
    p.rsrv1 == 0 && (forall i :: 0 <= i < 3 ==> p.rsrv2[i] == 0) && (forall i :: 0 <= i < 24 ==> p.rsrv3[i] == 0)
  }

  /** Both packets the sender builds carry the magic header, device 0x1234,
      zero reserved fields and leading zeros shown; they differ only in the
      control code and the time. */
  lemma BuiltPackets(h: Byte, m: Byte, s: Byte)
    ensures var p := RegularPacket(h, m, s);
      HasMagic(p) && ReservedZero(p) && p.device == DEVICE_ID && p.zeros == 0
      && p.ctrlCode == 0x02 && p.h == h && p.m == m && p.s == s
    ensures var e := SentinelPacket();
      HasMagic(e) && ReservedZero(e) && e.device == DEVICE_ID && e.zeros == 0
      && e.ctrlCode == 0x00 && e.h == 0 && e.m == 0 && e.s == 0
    ensures SentinelPacket() == RegularPacket(0, 0, 0).(ctrlCode := CTRL_END)
  {
  }

  /** The encoded reserved regions of both built packets are zero bytes, in
      the clear encoding, before the keystream is applied. */
  lemma BuiltPacketsEncodedReserved(h: Byte, m: Byte, s: Byte)
    ensures forall p :: p == RegularPacket(h, m, s) || p == SentinelPacket() ==>
      var r := Encode(p);
      r[8] == 0 && r[9] == 0 && r[16] == 0 && r[17] == 0 && r[18] == 0
      && forall i :: 20 <= i < 44 ==> r[i] == 0
  {
    forall p | p == RegularPacket(h, m, s) || p == SentinelPacket()
      ensures var r := Encode(p);
        r[8] == 0 && r[9] == 0 && r[16] == 0 && r[17] == 0 && r[18] == 0
        && forall i :: 20 <= i < 44 ==> r[i] == 0
    {
      EncodeLayout(p);
      var r := Encode(p);
      forall i | 20 <= i < 44 ensures r[i] == 0 {
        assert r[i] == r[20..44][i - 20];
      }
    }
  }
}
