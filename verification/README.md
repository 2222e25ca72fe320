# Masterclock time sender — a Dafny model

The system broadcasts a 48-byte "time packet" over IPv4 multicast UDP once
a second and offers a companion listener that inspects such packets. The
sender (`main.go`) fills a `TimePacket` struct with three magic header words
(HDR1 `0x2381D765`, HDR2 `0x10B32FE1`, FAMILY `0x00000080`), device `0x1234`,
zero reserved fields, a control code and the current hour, minute and second.
It serialises the struct big-endian (`packetToBytes`) and obfuscates the bytes
in place with an XOR keystream (`crypt`), which mixes a 17-byte key with a pad
counter running 1..253. On a termination signal a separate goroutine sends a
sentinel packet with control code 0 and time 00:00:00, then closes the
channel that ends the send loop. The listener
(`listener.go`, `analyzePacket`) refuses frames under 48 bytes and reads the
fields at fixed offsets. It then checks the three magic words, warning about
each mismatch separately.

The model has five modules:

- `Bytes`: Go's `byte`, `uint16` and `uint32` as `bv8`, `bv16` and `bv32`,
  with big-endian reads and writes.
- `Packet`: the struct, the magic constants, the encoder and the two packets
  the sender builds.
- `Cipher`: `crypt` as an in-place loop over an `array<bv8>`, proved against
  a closed-form keystream (mask at position `i` = `((i mod 253) + 1) XOR
  key[i mod 17]`).
- `Listener`: field extraction as a pure `Decode`, the flag-clearing
  validation as a method, and `analyzePacket` as a method that reads its
  frame and never writes it.
- `Sender`: the send pipeline as a class. It holds the log of datagrams
  written and whether the loop still runs.

The listener does not decrypt what it receives, while the sender always
encrypts. The model states this mismatch as a property
(`Sender.ListenerSeesCiphertext`): a frame from a conformant sender, read as
the listener reads it, fails all three header checks. The mismatch is
recorded, not repaired.

The struct's comments call RSRV1, RSRV2 and RSRV3 "Reserved (zero-filled)"
(main.go:32, 35 and 37), but nothing in `packetToBytes` clears them: it writes
the struct's own values through `binary.Write` (main.go:168), and the model
follows the code: `Packet.EncodeLayout` places `rsrv1`, `rsrv2` and `rsrv3` in
the clear encoding as given, before `crypt` XORs them with the keystream. Both packets the sender builds carry zero reserved fields
(`Packet.BuiltPacketsEncodedReserved`), so on the wire the difference never shows.

## Model

| member | source | states |
|---|---|---|
| Bytes.U32ToBE | main.go:166-173 | a `uint32` field takes four big-endian bytes, and reading them back gives the same value |
| Bytes.U16ToBE | main.go:166-173 | a `uint16` field takes two big-endian bytes, and reading them back gives the same value |
| Bytes.BEToU32Injective | listener.go:53-57 | two four-byte slices read as the same `uint32` exactly when they are equal |
| Packet.Encode | main.go:166-173 | serialising any packet succeeds and yields exactly 48 bytes |
| Packet.EncodeLayout | main.go:29-42 | the offset of every field: HDR1 0..4, HDR2 4..8, RSRV1 8..10, DEVICE 10..12, FAMILY 12..16, RSRV2 16..19, ZEROS 19, RSRV3 20..44, CTRLCODE 44, H/M/S 45..47 |
| Packet.EncodeInjective | main.go:166-173 | two packets encode to the same bytes exactly when they are equal, so no field is lost |
| Packet.BuiltPackets | main.go:74-133 | both built packets (the sentinel literal at main.go:74-87, the tick literal at main.go:120-133) carry the magic header, device 0x1234, zero reserved fields and ZEROS 0; the tick packet has control 0x02 and the given time; the sentinel has control 0x00 and time 0:0:0 and differs from a tick packet only in control code |
| Packet.BuiltPacketsEncodedReserved | main.go:74-133 | in the clear encoding, before `crypt`, both built packets (main.go:74-87 and main.go:120-133) have zero bytes at 8..10, 16..19 and 20..44 |
| Cipher.CountersAtClosedForm | main.go:177-188 | after `i` steps the key cursor is `i mod 17` (so 0..16) and the pad is `(i mod 253) + 1` (so 1..253, never 0 or 254) |
| Cipher.Crypt | main.go:176-190 | the buffer afterwards holds each original byte XORed with the mask of its position, and keeps its length |
| Cipher.CryptedInvolution | main.go:176-190 | applying the transform twice restores any buffer: encryption and decryption are the same operation |
| Cipher.MaskIsPositional | main.go:179-180 | the byte XORed in at position `i` is the same for any two buffers: it depends on the position only |
| Cipher.ZeroBufferIsKeystream | main.go:176-190 | encrypting zero bytes yields the keystream itself |
| Cipher.KeystreamExample | main.go:177-188 | in 300 encrypted zero bytes, byte 0 is `1^key[0]` and byte 1 is `2^key[1]`; the key cursor wraps at position 17 and the pad wraps from 253 back to 1 at position 253 |
| Cipher.HeaderKeystream | main.go:176-190 | the masks over the first byte of HDR1, HDR2 and FAMILY are 0x75, 0xC9 and 0x2B |
| Listener.Decode | listener.go:44-62 | a frame is refused exactly when it is shorter than 48 bytes; otherwise each field is read at its fixed offset |
| Listener.Validate | listener.go:73-89 | the verdict is valid exactly when all three magic words match; each mismatch is flagged exactly when its own word differs, independently of the others, at most once and in the order HDR1, HDR2, FAMILY |
| Listener.AnalyzePacket | listener.go:44-90 | a short frame is refused before any read; otherwise the fields are those `Decode` gives and the verdict and warnings, once each in check order, are those of `Validate`; the frame is never written |
| Listener.DecodeIgnoresTail | listener.go:45-62 | bytes after offset 48 do not change what is decoded |
| Listener.DecodeReadsOnly | listener.go:53-62 | frames that agree on bytes 0..16, 19 and 44..48 decode alike, so the reserved regions play no part |
| Listener.DecodeEncode | listener.go:53-89 | decoding an encoded packet gives back every field the listener reads, and the verdict is valid exactly when the packet carries the magic words |
| Listener.TimeBroadcastExample | main.go:120-133 | the 14:30:00 tick packet decodes to hour 14, minute 30, second 0, control 2, valid |
| Listener.SentinelDecodes | main.go:74-87 | the sentinel decodes to control 0 at 00:00:00, valid |
| Sender.CipherWordDiffers | listener.go:53-57 | a word read from an encrypted frame differs from the clear word whenever the mask over its first byte is nonzero |
| Sender.ListenerSeesCiphertext | main.go:143 | the listener, not decrypting, reads HDR1, HDR2 and FAMILY values that differ from what was encoded; for a conformant sender every header check fails |
| Sender.Prepare | main.go:136-143 | the datagram of a packet is a fresh buffer holding the encryption of its encoding |
| Sender.Emitted | main.go:136-146 | a sent datagram is 48 bytes, and decrypting and decoding it recovers the packet's visible fields |
| Sender.TickKeepsLog | main.go:117-154 | writing a tick packet while running keeps the log invariant: every datagram is 48 bytes and decrypts to a valid packet, and none is a sentinel |
| Sender.TerminateKeepsLog | main.go:69-107 | stopping keeps the log invariant, with or without the sentinel written; in the model, where the handler is one atomic step, a sentinel can only be the last datagram |
| Sender.Sender.constructor | main.go:109-115 | the loop starts running with nothing sent |
| Sender.Sender.Tick | main.go:117-154 | a tick appends the encrypted tick packet when the write succeeds and nothing otherwise; the loop keeps running and the invariant holds |
| Sender.Sender.Terminate | main.go:69-107 | the handler appends the encrypted sentinel when the write succeeds and stops the loop either way; the invariant holds |

## Left out

- Sockets: address resolution, dialling, joining the multicast group and reading datagrams are not modelled. The outcome of a socket write is the `writeOk` parameter of `Sender.Tick` and `Sender.Terminate`.
- The one-second ticker, `time.Now` and the signal goroutine are not modelled. The hour, minute and second are parameters, and a signal is a call to `Sender.Terminate`.
- Sender.Sender.Terminate: the handler runs on its own goroutine, concurrently with the loop, and closes the stop channel only after its write (main.go:97-106). The model treats it as one atomic step that no tick follows. In main.go a tick can still be sent after the sentinel: one already past its `select`, or one chosen at random by the next `select` (main.go:116) when both the ticker and the closed stop channel are ready. The sentinel-last clause of `Sender.ValidLog`, and so of `Sender.TerminateKeepsLog`, holds only for the model's atomic handler.
- Printing, the hex dump of received frames and the listener's receive loop (listener.go:12-42) are left out. The receive loop's own length test duplicates the guard modelled in `Listener.AnalyzePacket`.
- Packet.Encode: the error return of `packetToBytes` is left out. `binary.Write` into a memory buffer of a fixed-size struct cannot fail, so the encoder is a total function.
- Cipher.Crypt: the pad counter is a Go `byte`, but the model holds it as a mathematical integer. It never exceeds 254 before being reset, so the byte's wrap-around is never reached.
- Sender.ListenerSeesCiphertext: states that the decoded header words differ from the clear ones, not their exact encrypted values.
- test.go is not part of this model.
