/** The listener's packet analysis (`analyzePacket` in listener.go): the
    short-frame guard, the field reads at fixed offsets and the verdict on
    the three magic header fields. */
module Listener {
  import opened Bytes
  import opened Packet

  datatype Option<T> = None | Some(value: T)

  /** The fields the listener reads out of a frame. The reserved regions
      RSRV2 and RSRV3 are not read. */
  datatype Fields = Fields(
    hdr1: bv32,
    hdr2: bv32,
    rsrv1: bv16,
    device: bv16,
    family: bv32,
    zeros: Byte,
    ctrlCode: Byte,
    h: Byte,
    m: Byte,
    s: Byte)

  /** A header field the validation can flag. */
  datatype Mismatch = Hdr1Mismatch | Hdr2Mismatch | FamilyMismatch

  /** The order in which the listener checks, and warns about, the fields. */
  function Rank(x: Mismatch): nat
  {
    match x
    case Hdr1Mismatch => 0
    case Hdr2Mismatch => 1
    case FamilyMismatch => 2
  }

  /** The warnings come in check order, each at most once. */
  predicate InCheckOrder(ms: seq<Mismatch>)
  {
    forall i, j :: 0 <= i < j < |ms| ==> Rank(ms[i]) < Rank(ms[j])
  }

  /** The outcome of analysing one frame. */
  datatype Analysis =
    | ShortFrame
    | Analyzed(fields: Fields, valid: bool, mismatches: seq<Mismatch>)

  /** The field reads of analyzePacket; a frame under 48 bytes is refused
      before any byte is read. */
  function Decode(data: seq<Byte>): (r: Option<Fields>)
    ensures r.None? <==> |data| < PacketSize
  {
    if |data| < PacketSize then None
    else Some(Fields(
      hdr1 := BEToU32(data[0..4]),
      hdr2 := BEToU32(data[4..8]),
      rsrv1 := BEToU16(data[8..10]),
      device := BEToU16(data[10..12]),
      family := BEToU32(data[12..16]),
      zeros := data[19],
      ctrlCode := data[44],
      h := data[45],
      m := data[46],
      s := data[47]))
  }

  /** The verdict the listener prints "Packet format is correct" for. */
  predicate Conformant(f: Fields)
  {
    f.hdr1 == HDR1 && f.hdr2 == HDR2 && f.family == FAMILY
  }

  /** The packet fields the listener can see. */
  function Visible(p: TimePacket): Fields
  {
    Fields(p.hdr1, p.hdr2, p.rsrv1, p.device, p.family, p.zeros, p.ctrlCode, p.h, p.m, p.s)
  }

  /** The validation of analyzePacket: a flag starts true and each of the
      three checks clears it and records a warning on its own mismatch. */
  method Validate(f: Fields) returns (valid: bool, mismatches: seq<Mismatch>)
    ensures valid <==> Conformant(f)
    ensures valid <==> mismatches == []
    ensures Hdr1Mismatch in mismatches <==> f.hdr1 != HDR1
    ensures Hdr2Mismatch in mismatches <==> f.hdr2 != HDR2
    ensures FamilyMismatch in mismatches <==> f.family != FAMILY
    ensures InCheckOrder(mismatches)
    ensures |mismatches| <= 3
  {
    valid := true;
    mismatches := [];
    if f.hdr1 != 0x2381D765 {
      mismatches := mismatches + [Hdr1Mismatch];
      valid := false;
    }
    if f.hdr2 != 0x10B32FE1 {
      mismatches := mismatches + [Hdr2Mismatch];
      valid := false;
    }
    if f.family != 0x00000080 {
      mismatches := mismatches + [FamilyMismatch];
      valid := false;
    }
  }

  /** analyzePacket on a received frame. The frame has no `modifies` clause:
      analysing a frame never writes to it. */
  method AnalyzePacket(data: array<Byte>) returns (a: Analysis)
    ensures a.ShortFrame? <==> data.Length < PacketSize
    ensures a.Analyzed? ==> Decode(data[..]) == Some(a.fields)
    ensures a.Analyzed? ==> (a.valid <==> Conformant(a.fields))
    ensures a.Analyzed? ==> (a.valid <==> a.mismatches == [])
    ensures a.Analyzed? ==> forall x :: x in a.mismatches <==>
      (x == Hdr1Mismatch && a.fields.hdr1 != HDR1)
      || (x == Hdr2Mismatch && a.fields.hdr2 != HDR2)
      || (x == FamilyMismatch && a.fields.family != FAMILY)
    ensures a.Analyzed? ==> InCheckOrder(a.mismatches)
  {
    if data.Length < 48 {
      return ShortFrame;
    }
    var f := Fields(
      hdr1 := BEToU32(data[0..4]),
      hdr2 := BEToU32(data[4..8]),
      rsrv1 := BEToU16(data[8..10]),
      device := BEToU16(data[10..12]),
      family := BEToU32(data[12..16]),
      zeros := data[19],
      ctrlCode := data[44],
      h := data[45],
      m := data[46],
      s := data[47]);
    assert data[..][0..4] == data[0..4] && data[..][4..8] == data[4..8];
    assert data[..][8..10] == data[8..10] && data[..][10..12] == data[10..12];
    assert data[..][12..16] == data[12..16];
    var valid, mismatches := Validate(f);
    a := Analyzed(f, valid, mismatches);
  }

  /** Only the first 48 bytes of a frame matter: anything after offset 48 is ignored. */
  lemma DecodeIgnoresTail(data: seq<Byte>, tail: seq<Byte>)
    requires |data| >= PacketSize
    ensures Decode(data + tail) == Decode(data) == Decode(data[..PacketSize])
  {
    var d := data + tail;
    assert d[0..4] == data[0..4] == data[..PacketSize][0..4];
    assert d[4..8] == data[4..8] == data[..PacketSize][4..8];
    assert d[8..10] == data[8..10] == data[..PacketSize][8..10];
    assert d[10..12] == data[10..12] == data[..PacketSize][10..12];
    assert d[12..16] == data[12..16] == data[..PacketSize][12..16];
  }

  /** Two frames of at least 48 bytes that agree on the bytes the listener
      reads decode alike; the reserved regions 16..19 and 20..44 play no part. */
  lemma DecodeReadsOnly(a: seq<Byte>, b: seq<Byte>)
    requires |a| >= PacketSize && |b| >= PacketSize
    requires a[..16] == b[..16] && a[19] == b[19] && a[44..48] == b[44..48]
    ensures Decode(a) == Decode(b)
  {
    assert a[0..4] == a[..16][0..4] && b[0..4] == b[..16][0..4];
    assert a[4..8] == a[..16][4..8] && b[4..8] == b[..16][4..8];
    assert a[8..10] == a[..16][8..10] && b[8..10] == b[..16][8..10];
    assert a[10..12] == a[..16][10..12] && b[10..12] == b[..16][10..12];
    assert a[12..16] == a[..16][12..16] && b[12..16] == b[..16][12..16];
    assert a[44] == a[44..48][0] && b[44] == b[44..48][0];
    assert a[45] == a[44..48][1] && a[46] == a[44..48][2] && a[47] == a[44..48][3];
    assert b[45] == b[44..48][1] && b[46] == b[44..48][2] && b[47] == b[44..48][3];
  }

  /** Decoding the clear encoding of a packet recovers every field the
      listener reads, and the verdict is valid exactly when the packet
      carries the three magic constants. */
  lemma DecodeEncode(p: TimePacket)
    ensures Decode(Encode(p)) == Some(Visible(p))
    ensures Conformant(Visible(p)) <==> HasMagic(p)
  {
    EncodeLayout(p);
  }

  /** Worked example: the 14:30:00 broadcast decodes to hour 14, minute 30,
      second 0 with control code 2, and validates. */
  lemma TimeBroadcastExample()
    ensures var r := Decode(Encode(RegularPacket(0x0E, 0x1E, 0x00)));
      && r.Some? && r.value.h == 14 && r.value.m == 30 && r.value.s == 0
      && r.value.ctrlCode == 0x02 && Conformant(r.value)
  {
    DecodeEncode(RegularPacket(0x0E, 0x1E, 0x00));
  }

  /** The sentinel decodes as control code 0 at time 00:00:00, and validates. */
  lemma SentinelDecodes()
    ensures var r := Decode(Encode(SentinelPacket()));
      && r.Some? && r.value.ctrlCode == 0x00
      && r.value.h == 0 && r.value.m == 0 && r.value.s == 0 && Conformant(r.value)
  {
    DecodeEncode(SentinelPacket());
  }
}
