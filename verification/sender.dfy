/** The sender's control loop (`main` in main.go) reduced to its packet
    pipeline: each tick builds a time packet, encodes it, encrypts it in
    place and writes it; the termination handler does the same with the
    sentinel packet and then stops the loop. Sockets, the ticker and signal
    delivery are outside the model; the outcome of each socket write is a
    parameter. */
module Sender {
  import opened Bytes
  import opened Packet
  import opened Cipher
  import opened Listener

  /** packetToBytes followed by crypt: the datagram written for `p`. */
  method Prepare(p: TimePacket) returns (data: array<Byte>)
    ensures fresh(data)
    ensures data[..] == Crypted(Encode(p))
  {
    var bytes := Encode(p);
    data := new Byte[|bytes|](i requires 0 <= i < |bytes| => bytes[i]);
    Crypt(data);
  }

  /** What the receiving side recovers from a datagram once it is decrypted. */
  function Recovered(d: seq<Byte>): Option<Fields>
  {
    Decode(Crypted(d))
  }

  /** The sender's log invariant: every datagram is 48 bytes and decrypts
      to a packet with the magic header; a session-end packet appears only as
      the last datagram, and only once the loop has stopped. The last clause
      holds because the model takes the termination handler as one atomic
      step after which no tick runs. */
  ghost predicate ValidLog(sent: seq<seq<Byte>>, running: bool)
  {
    forall k :: 0 <= k < |sent| ==>
      && |sent[k]| == PacketSize
      && Recovered(sent[k]).Some?
      && Conformant(Recovered(sent[k]).value)
      && (Recovered(sent[k]).value.ctrlCode == CTRL_END ==> k == |sent| - 1 && !running)
  }

  /** A datagram of a built packet is 48 bytes, and decrypting and decoding
      it gives back the packet's visible fields. */
  lemma Emitted(p: TimePacket)
    ensures |Crypted(Encode(p))| == PacketSize
    ensures Recovered(Crypted(Encode(p))) == Some(Visible(p))
  {
    CryptedInvolution(Encode(p));
    DecodeEncode(p);
  }

  /** Writing a time packet while running keeps the log invariant. */
  lemma {:induction false} TickKeepsLog(sent: seq<seq<Byte>>, h: Byte, m: Byte, s: Byte)
    requires ValidLog(sent, true)
    ensures ValidLog(sent + [Crypted(Encode(RegularPacket(h, m, s)))], true)
  {
    var p := RegularPacket(h, m, s);
    var log := sent + [Crypted(Encode(p))];
    Emitted(p);
    DecodeEncode(p);
    forall k | 0 <= k < |log|
      ensures |log[k]| == PacketSize && Recovered(log[k]).Some? && Conformant(Recovered(log[k]).value)
      ensures Recovered(log[k]).value.ctrlCode != CTRL_END
    {
      if k < |sent| {
        assert log[k] == sent[k];
      }
    }
  }

  /** Stopping, with or without the sentinel written, keeps the log
      invariant; the sentinel then closes the log. */
  lemma {:induction false} TerminateKeepsLog(sent: seq<seq<Byte>>)
    requires ValidLog(sent, true)
    ensures ValidLog(sent, false)
    ensures ValidLog(sent + [Crypted(Encode(SentinelPacket()))], false)
  {
    var p := SentinelPacket();
    var log := sent + [Crypted(Encode(p))];
    Emitted(p);
    DecodeEncode(p);
    forall k | 0 <= k < |log|
      ensures |log[k]| == PacketSize && Recovered(log[k]).Some? && Conformant(Recovered(log[k]).value)
      ensures Recovered(log[k]).value.ctrlCode == CTRL_END ==> k == |log| - 1
    {
      if k < |sent| {
        assert log[k] == sent[k];
      }
    }
  }

  /** A header word read from an encrypted frame differs from the clear one
      whenever the keystream byte over its first byte is nonzero. */
  lemma CipherWordDiffers(e: seq<Byte>, off: nat)
    requires off + 4 <= |e| && Mask(off) != 0
    ensures BEToU32(Crypted(e)[off..off + 4]) != BEToU32(e[off..off + 4])
  {
    var c := Crypted(e);
    assert c[off..off + 4][0] == e[off] ^ Mask(off) != e[off];
    BEToU32Injective(c[off..off + 4], e[off..off + 4]);
  }

  /** The listener does not decrypt, while the sender always encrypts.
      Decoding an encrypted frame never gives back the HDR1, HDR2 or FAMILY
      the sender encoded, so a frame from a conformant sender always fails
      all three header checks. */
  lemma ListenerSeesCiphertext(p: TimePacket)
    ensures Decode(Crypted(Encode(p))).Some?
    ensures var f := Decode(Crypted(Encode(p))).value;
      f.hdr1 != p.hdr1 && f.hdr2 != p.hdr2 && f.family != p.family
    ensures HasMagic(p) ==> var f := Decode(Crypted(Encode(p))).value;
      f.hdr1 != HDR1 && f.hdr2 != HDR2 && f.family != FAMILY && !Conformant(f)
  {
    var e := Encode(p);
    DecodeEncode(p);
    HeaderKeystream();
    CipherWordDiffers(e, 0);
    CipherWordDiffers(e, 4);
    CipherWordDiffers(e, 12);
  }

  class Sender {
    /** The datagrams written to the multicast group so far, in order. */
    var sent: seq<seq<Byte>>
    /** False once the termination handler has closed the stop channel. */
    var running: bool

    ghost predicate Valid()
      reads this
    {
      ValidLog(sent, running)
    }

    constructor ()
      ensures Valid() && running && sent == []
    {
      sent := [];
      running := true;
    }

    /** One ticker case: a time packet for `h`:`m`:`s`. When the write fails
        the packet is lost and the loop goes on. */
    method Tick(h: Byte, m: Byte, s: Byte, writeOk: bool)
      requires Valid() && running
      modifies this
      ensures Valid() && running
      ensures sent == old(sent) + (if writeOk then [Crypted(Encode(RegularPacket(h, m, s)))] else [])
    {
      var data := Prepare(RegularPacket(h, m, s));
      if writeOk {
        TickKeepsLog(sent, h, m, s);
        sent := sent + [data[..]];
      }
    }

    /** The termination handler: the sentinel packet is built, encrypted and
        written, and the loop stops whether or not the write succeeded. */
    method Terminate(writeOk: bool)
      requires Valid() && running
      modifies this
      ensures Valid() && !running
      ensures sent == old(sent) + (if writeOk then [Crypted(Encode(SentinelPacket()))] else [])
    {
      var data := Prepare(SentinelPacket());
      TerminateKeepsLog(sent);
      running := false;
      if writeOk {
        sent := sent + [data[..]];
      }
    }
  }
}
