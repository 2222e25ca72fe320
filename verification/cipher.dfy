/** The XOR keystream applied in place to every outgoing datagram (`crypt`
    in main.go). Two counters step once per byte: a key cursor over the
    17-byte key and a pad counter that runs 1..253 and wraps back to 1. */
module Cipher {
  import opened Bytes

  /** The fixed 17-byte shared key. */
  const Key: seq<Byte> := [0x74, 0x12, 0x02, 0xfb, 0xcc, 0x24, 0x5b, 0x82, 0x61, 0xe7, 0x3f, 0x9a, 0x26, 0x7c, 0xd3, 0xa0, 0x42]

  /** Number of distinct pad values: the pad counter runs 1..253. */
  const PadPeriod: nat := 253

  /** The counters of `crypt` before it processes a byte: `padcnt` (a Go
      `byte`) and `keycnt` (a Go `int`). The pad is held as a `nat`: it never
      exceeds 254, so the byte's wrap-around at 256 is never reached. */
  datatype Counters = Counters(pad: nat, key: nat)

  /** One step of the two counters, as the loop body does it: increment,
      then wrap the key cursor at the key length and the pad at 254. */
  function Step(c: Counters): Counters
  {
    var k := c.key + 1;
    var p := c.pad + 1;
    Counters(if p == 254 then 1 else p, if k == |Key| then 0 else k)
  }

  /** The counters when byte `i` is processed: both start fresh (pad 1, key 0) on every call. */
  function CountersAt(i: nat): Counters
  {
    if i == 0 then Counters(1, 0) else Step(CountersAt(i - 1))
  }

  /** The pad value at position `i` in closed form: `(i mod 253) + 1`. */
  function Pad(i: nat): (r: nat)
    ensures 1 <= r <= 253
    ensures r == 1 <==> i % PadPeriod == 0
  {
    i % PadPeriod + 1
  }

  /** The byte XORed into position `i`: `((i mod 253) + 1) XOR key[i mod 17]`,
      a function of the position alone. */
  function Mask(i: nat): Byte
  {
    AsByte(Pad(i)) ^ Key[i % |Key|]
  }

  /** What `crypt` leaves in a buffer that held `s`. */
  function Crypted(s: seq<Byte>): (r: seq<Byte>)
    ensures |r| == |s|
  {
    seq(|s|, i requires 0 <= i < |s| => s[i] ^ Mask(i))
  }

  /** Stepping a position by one steps its residue modulo the key length
      by one, wrapping to 0. */
  lemma KeySucc(j: nat)
    ensures (j + 1) % |Key| == if j % |Key| == |Key| - 1 then 0 else j % |Key| + 1
  {
    var q, r := j / 17, j % 17;
    assert j == 17 * q + r;
    if r == 16 {
      assert j + 1 == 17 * (q + 1) + 0;
    } else {
      assert j + 1 == 17 * q + (r + 1);
    }
  }

  /** Stepping a position by one steps its residue modulo the pad period
      by one, wrapping to 0. */
  lemma PadSucc(j: nat)
    ensures (j + 1) % PadPeriod == if j % PadPeriod == PadPeriod - 1 then 0 else j % PadPeriod + 1
  {
    var q, r := j / 253, j % 253;
    assert j == 253 * q + r;
    if r == 252 {
      assert j + 1 == 253 * (q + 1) + 0;
    } else {
      assert j + 1 == 253 * q + (r + 1);
    }
  }

  /** The stepping counters agree with the closed form at every position:
      the key cursor is `i mod 17`, so it stays in 0..16, and the pad is
      `(i mod 253) + 1`, so it stays in 1..253 and is never 0 or 254. */
  lemma {:induction false} CountersAtClosedForm(i: nat)
    ensures CountersAt(i) == Counters(Pad(i), i % |Key|)
    ensures 1 <= CountersAt(i).pad <= 253 && CountersAt(i).key < |Key|
  {
    if i > 0 {
      CountersAtClosedForm(i - 1);
      PadSucc(i - 1);
      KeySucc(i - 1);
    }
  }

  /** crypt(buf): XOR every byte with `padcnt ^ key[keycnt]`, stepping both counters. */
  method Crypt(buf: array<Byte>)
    modifies buf
    ensures buf[..] == Crypted(old(buf[..]))
  {
    var padcnt: nat := 1;
    var keycnt: nat := 0;
    for i := 0 to buf.Length
      invariant Counters(padcnt, keycnt) == CountersAt(i)
      invariant 1 <= padcnt <= 253 && keycnt < |Key|
      invariant forall j :: 0 <= j < i ==> buf[j] == old(buf[j]) ^ Mask(j)
      invariant forall j :: i <= j < buf.Length ==> buf[j] == old(buf[j])
    {
      CountersAtClosedForm(i);
      buf[i] := buf[i] ^ (AsByte(padcnt) ^ Key[keycnt]);
      keycnt := keycnt + 1;
      if keycnt == |Key| {
        keycnt := 0;
      }
      padcnt := padcnt + 1;
      if padcnt == 254 {
        padcnt := 1;
      }
      CountersAtClosedForm(i + 1);
    }
  }

  /** Encrypting and decrypting are the same operation: applying it twice restores the buffer. */
  lemma CryptedInvolution(s: seq<Byte>)
    ensures Crypted(Crypted(s)) == s
  {
    var c := Crypted(s);
    forall i | 0 <= i < |s| ensures Crypted(c)[i] == s[i] {
      assert c[i] == s[i] ^ Mask(i);
    }
  }

  /** Only XOR with a mask happens, and the mask does not depend on the
      buffer's contents: two buffers see the same mask at every common position. */
  lemma MaskIsPositional(a: seq<Byte>, b: seq<Byte>, i: nat)
    requires i < |a| && i < |b|
    ensures Crypted(a)[i] ^ a[i] == Mask(i) == Crypted(b)[i] ^ b[i]
  {
  }

  /** Encrypting a buffer of zero bytes yields the keystream itself. */
  lemma ZeroBufferIsKeystream(n: nat)
    ensures var z := Crypted(seq(n, _ => 0));
      forall i :: 0 <= i < n ==> z[i] == Mask(i)
  {
  }

  /** Encrypting 300 zero bytes: byte 0 is 1 ^ key[0], the key cursor
      wraps at position 17 and the pad wraps from 253 back to 1 at position 253. */
  lemma KeystreamExample()
    ensures var z := Crypted(seq(300, _ => 0));
      && z[0] == 1 ^ 0x74 && z[1] == 2 ^ 0x12
      && z[16] == 17 ^ 0x42 && z[17] == 18 ^ 0x74
      && z[252] == 253 ^ 0xd3 && z[253] == 1 ^ 0xa0
      && z[299] == 47 ^ 0x3f
  {
    ZeroBufferIsKeystream(300);
    assert Pad(0) == 1 && Pad(1) == 2 && Pad(16) == 17 && Pad(17) == 18;
    assert Pad(252) == 253 && Pad(253) == 1 && Pad(299) == 47;
  }

  /** The keystream bytes at the first byte of HDR1 (offset 0), HDR2
      (offset 4) and FAMILY (offset 12) are all nonzero. */
  lemma HeaderKeystream()
    ensures Mask(0) == 0x75 && Mask(4) == 0xC9 && Mask(12) == 0x2B
  {
    assert Pad(0) == 1 && Pad(4) == 5 && Pad(12) == 13;
  }
}
