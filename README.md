# HDP latency probe: frame codec, sender loop and receiver header parsing

The repository is two small raw-socket programs. The sender (`src/client/main.rs`)
sends `num_packets + 1` frames to one address. Each frame carries a payload one
marker byte (`1`) longer than the one before. A frame is either an HDP frame or
a UDP-shaped frame:

- HDP frame: a 12-byte header with source port 420, destination port 420 and a
  64-bit nanosecond timestamp, all big-endian, then the payload.
- UDP-shaped frame: an 8-byte header with ports 420/420, a 16-bit length and a
  zero checksum, then the payload.

In cycling mode (protocol argument `-1`) the sender uses protocol number
`i % 256` at iteration `i`. It pauses `200 + i % 150` ms before each iteration.
For each frame it accounts a byte total of 20 + header length + payload length.

The receiver (`src/server/main.rs`) does three things with each packet. It
appends the received bytes to `/tmp/hdp/hdp_<micros>.bin`. It reads the
protocol number (byte 9) and the source address (bytes 12..16) from the first 20
bytes. It reports the address in dotted-decimal form, along with the received
byte count.

The Dafny modules follow that structure:

- `Bytes` (`bytes.dfy`): bytes, `u16`, `u64`, and big-endian encoding (`BeBytes`) and
  decoding (`BeValue`), with round-trip lemmas in both directions.
- `Decimal` (`decimal.dfy`): decimal rendering of naturals (`Show`), its inverse
  `Value`, and the canonical-form bijection.
- `FrameCodec` (`frame_codec.dfy`): the frame records, their wire forms, the
  builders as imperative methods that append field by field, and decoders.
  The decoders are the inverses of the builders. They are written from the
  commented-out parse lines of the receiver. They are model-side helpers and not
  receiver behaviour, because that code is inert.
- `Sender` (`sender.dfy`): frame-kind token, protocol selection, delay,
  iteration count (with the `as i32` cast), byte-sum accounting, `send_packet`,
  and the main loop `RunSender`.
- `Receiver` (`receiver.dfy`): IP-version selection, dotted-decimal formatting
  and its split-based inverse, the archive name, one reception step, and a
  finite run `Serve` of the endless receive loop with its append-mode archive.
- `Wrappers` (`wrappers.dfy`): `Option` and `Result`.

The world is passed in as parameters. For the sender, each iteration gets an
`Attempt`: socket created or not, the two clock readings in nanoseconds since the
epoch, and send accepted or not. For the receiver, each packet is an `Arrival`:
the receive buffer, the count `recv_from` returned, and the arrival time in
microseconds.

The code as written behaves as follows, and the model follows it:

- The UDP length field is `(8 + len) as u16`. It is truncated modulo 65536, so it
  equals `8 + len` only for payloads of at most 65527 bytes.
- `0..=num_packets as i32` casts a `u32` to `i32`. Counts of 2^31 and above wrap
  to negative numbers, so the loop then runs zero times instead of `num_packets + 1`.
- An unknown frame-kind token is not rejected at startup. It panics inside the
  loop, in the first iteration, after the sleep and the first marker byte and
  before any send. With zero iterations it never panics.
- The sender reads stdin in full into a buffer it never uses. Every frame's
  payload is only the cumulative marker bytes, so stdin content never goes on the wire.
- The receiver parses the first 20 bytes the same way for IPv4 and IPv6
  sockets. Nothing reports protocol 0 or an "unknown" address for IPv6.
- The receiver writes the archive file before it parses the header. A packet
  shorter than 20 bytes is archived, and then the `[..20]` slice panics and ends
  the process.

## Model

| member | source | states |
|---|---|---|
| `Bytes.BeBytes` | src/client/main.rs:110-144 | `to_be_bytes` on a `u16` or `u64` yields exactly `width` bytes (2 or 8) |
| `Bytes.BeValueOfBeBytes` | src/client/main.rs:110 | decoding the `width`-byte big-endian encoding of `v` yields `v mod 256^width` |
| `Bytes.BeRoundTrip` | src/client/main.rs:123 | a value that fits the width decodes back to itself after `to_be_bytes` |
| `Bytes.BeBytesOfBeValue` | src/server/main.rs:92-95 | re-encoding a big-endian decoded byte string reproduces the byte string |
| `Bytes.BeValue` | src/server/main.rs:90 | a big-endian decode of n bytes is below 256^n |
| `Bytes.Pow256Widths` | src/client/main.rs:122-123 | two bytes hold 2^16 values and eight bytes hold 2^64 |
| `Decimal.Show` | src/server/main.rs:107 | `{}` on an octet or timestamp yields a non-empty digit string with no leading zero |
| `Decimal.ValueOfShow` | src/server/main.rs:107 | reading the digits back gives the number that was formatted |
| `Decimal.ShowInjective` | src/server/main.rs:69 | distinct numbers format to distinct digit strings |
| `Decimal.ShowOfValue` | src/server/main.rs:107 | every canonical digit string is the formatting of its value, so formatting is a bijection onto canonical strings |
| `FrameCodec.TruncateU64` | src/client/main.rs:122 | `as_nanos() as u64` keeps the value when it is below 2^64 |
| `FrameCodec.TruncateU16` | src/client/main.rs:140 | `(8 + len) as u16` keeps the value when it is below 2^16 |
| `FrameCodec.BuildHdpPacket` | src/client/main.rs:106-127 | the appended bytes are the HDP wire form of ports 420/420, the truncated clock reading and the payload; length is 12 + payload and bytes 12.. are the payload |
| `FrameCodec.BuildUdpPacket` | src/client/main.rs:131-148 | the appended bytes are the UDP-shaped wire form of ports 420/420, the truncated length, a zero checksum and the payload; length is 8 + payload and bytes 8.. are the payload |
| `FrameCodec.HdpPacket` | src/client/main.rs:106-127 | the HDP frame is 12 + payload bytes long, ends with the payload, and decodes to ports 420/420, the clock reading mod 2^64 and the payload |
| `FrameCodec.UdpPacket` | src/client/main.rs:131-148 | the UDP-shaped frame is 8 + payload bytes long, ends with the payload, and decodes to ports 420/420, the length (8 + payload) mod 65536, checksum 0 and the payload |
| `FrameCodec.HdpPacketLayout` | src/client/main.rs:106-127 | HDP frame: length 12 + payload; bytes 0..2 and 2..4 are `[0x01, 0xA4]`; bytes 4..12 decode to the clock reading mod 2^64, which is the reading itself below 2^64; bytes 12.. are the payload |
| `FrameCodec.UdpPacketLayout` | src/client/main.rs:131-148 | UDP-shaped frame: length 8 + payload; bytes 0..4 are two copies of `[0x01, 0xA4]`; bytes 4..6 decode to (8 + payload) mod 65536, which is the frame length when the payload is at most 65527 bytes; bytes 6..8 are zero; bytes 8.. are the payload |
| `FrameCodec.DecodeHdp` | src/server/main.rs:89-96 | decoding an HDP frame fails exactly when fewer than 12 bytes are given |
| `FrameCodec.DecodeUdp` | src/server/main.rs:98-103 | decoding a UDP-shaped frame fails exactly when fewer than 8 bytes are given |
| `FrameCodec.DecodeHdpOfHdpBytes` | src/server/main.rs:89-96 | decoding the wire form of any HDP frame returns that frame |
| `FrameCodec.HdpBytesOfDecodeHdp` | src/server/main.rs:89-96 | any successfully decoded HDP frame re-encodes to exactly the input bytes |
| `FrameCodec.DecodeUdpOfUdpBytes` | src/server/main.rs:98-103 | decoding the wire form of any UDP-shaped frame returns that frame |
| `FrameCodec.UdpBytesOfDecodeUdp` | src/server/main.rs:98-103 | any successfully decoded UDP-shaped frame re-encodes to exactly the input bytes |
| `Sender.ParseFrameKind` | src/client/main.rs:52-56 | "hdp" selects HDP, "udp" selects UDP-shaped, and every other token is unsupported (each direction) |
| `Sender.ProtocolAt` | src/client/main.rs:39-43 | in cycling mode (`-1`) the protocol is in 0..255 and equals `i` for the first 256 iterations; otherwise it is the argument unchanged |
| `Sender.ProtocolCycles` | src/client/main.rs:40 | in cycling mode the protocol repeats every 256 iterations and is `i` minus a multiple of 256 |
| `Sender.DelayMillis` | src/client/main.rs:46 | the pause lies in [200, 349] ms and is `200 + i` for the first 150 iterations |
| `Sender.DelayCycles` | src/client/main.rs:46 | the pause repeats every 150 iterations and is `200 + i` minus a multiple of 150 |
| `Sender.AsI32` | src/client/main.rs:38 | the `u32` to `i32` cast lands in the i32 range and agrees with its input modulo 2^32 |
| `Sender.IterationCount` | src/client/main.rs:38 | the loop runs `num_packets + 1` times when `num_packets < 2^31`, and zero times otherwise |
| `Sender.Frame` | src/client/main.rs:86-89 | the frame chosen by kind is HDP-header-length (12) or UDP-header-length (8) plus the payload long, and ends with the payload |
| `Sender.ByteSum` | src/client/main.rs:95-98 | the declared byte sum (20 + 12 or 20 + 8 + payload) is, for every payload of that length and every clock reading, 20 + the length of the frame actually built |
| `Sender.Transmit` | src/client/main.rs:76-100 | no frame exactly when the socket fails; otherwise the frame is `Frame` of the kind; sent exactly when the socket and the send succeed, and then the byte sum is 20 + the frame length and the time is the send clock in microseconds |
| `Sender.SendPacket` | src/client/main.rs:76-100 | socket failure yields no frame; otherwise the frame for the chosen kind is built; a frame counts as sent exactly when the socket and the send both succeed, and then its byte sum is 20 + the frame length |
| `Sender.Markers` | src/client/main.rs:36-37 | the cumulative payload of n iterations holds n bytes, every one the marker 1 |
| `Sender.IterationAt` | src/client/main.rs:39-70 | iteration i uses `ProtocolAt(i)`, pauses between 200 and 349 ms, carries i + 1 marker bytes, and a sent frame's byte sum is 20 + its length |
| `Sender.PayloadGrowsByOne` | src/client/main.rs:49 | each iteration's payload is the previous one with exactly one marker byte appended |
| `Sender.RunSender` | src/client/main.rs:34-71 | the loop panics exactly when the frame-kind token is unsupported and at least one iteration runs, and then nothing was sent; otherwise it runs `IterationCount` iterations; iteration i uses `ProtocolAt(i)`, pauses `DelayMillis(i)` and sends i + 1 marker bytes, extending the previous payload by one byte; every sent frame's byte sum is 20 + its length |
| `Sender.ThreeUdpIterations` | src/client/main.rs:38-71 | with count 2, protocol 17 and "udp" there are exactly three iterations, each on protocol 17, carrying 1, 2 and 3 marker bytes in UDP-shaped frames |
| `Receiver.SelectDomain` | src/server/main.rs:18-22 | version 4 selects IPv4, version 6 selects IPv6, and every other value is rejected (each direction) |
| `Receiver.FormatIpv4` | src/server/main.rs:107 | the dotted form of four octets is between 7 and 15 characters long |
| `Receiver.ArchivePath` | src/server/main.rs:69 | the archive name starts with `/tmp/hdp/hdp_`, ends with `.bin`, and between them holds the canonical decimal digits whose value is the arrival time in microseconds |
| `Receiver.FormatIpv4Pieces` | src/server/main.rs:107 | the dotted form splits at '.' into exactly four pieces; piece k is the canonical decimal (no leading zeros) whose value is octet k |
| `Receiver.FormatIpv4Dots` | src/server/main.rs:107 | the dotted form contains exactly three '.' characters |
| `Receiver.FormatIpv4Injective` | src/server/main.rs:107 | distinct addresses format to distinct strings |
| `Receiver.FormatIpv4Example` | src/server/main.rs:107 | bytes [10, 0, 0, 1] format as "10.0.0.1" |
| `Receiver.ArchivePathInjective` | src/server/main.rs:69 | packets arriving at distinct microsecond timestamps are archived under distinct file names |
| `Receiver.ReceiveStep` | src/server/main.rs:61-86 | the archived bytes are the first `size` bytes, in the file named for the arrival time; the header parse fails exactly when `size < 20`; otherwise protocol = byte 9, source = bytes 12..16, formatted source = its dotted form, byte count = `size` |
| `Receiver.ReceiveStepReadsOnlyPrefix` | src/server/main.rs:60-61 | buffers that agree on their first `size` bytes give identical archive writes and reports |
| `Receiver.AppendFile` | src/server/main.rs:65-70 | opening in append and create mode and writing adds the file if missing, makes its contents the old contents (empty if new) followed by the bytes, and leaves every other file unchanged |
| `Receiver.ArchiveAfter` | src/server/main.rs:65-70 | after a run, the archive holds exactly the files that existed before plus one file per handled arrival time |
| `Receiver.ArchiveHoldsEachPacket` | src/server/main.rs:65-70 | when arrival times are pairwise distinct and none of their files existed before, each packet's file holds exactly the first `size` bytes received for it |
| `Receiver.Serve` | src/server/main.rs:50-115 | the loop halts exactly when some packet is shorter than 20 bytes, and it halts at the first such packet after archiving it; every earlier packet is reported as `ReceiveStep` says; the archive is every handled packet appended to the file named for its arrival time |

## Left out

- Raw socket creation, `bind`, `send_to` and `recv_from` are OS I/O. Their outcomes are inputs: `Sender.Attempt` per iteration, `Receiver.Arrival` per packet.
- The fixed protocol number passed to `Socket::new` and the IPv4/IPv6 domain chosen from the destination address only affect socket creation. That outcome is an input, so the sender does not model them.
- `SystemTime::now()` readings are inputs in nanoseconds or microseconds since the epoch. The error paths for a clock set before the epoch are not modelled: `exit(1)` in `build_hdp_packet`, `time?` in `send_packet`, and `unwrap` in the receiver.
- `std::thread::sleep`: only the delay formula `DelayMillis` is kept.
- Reading stdin, the `atty` check, and parsing `env::args` with `expect` are process plumbing. The frame-kind token is modelled because its check runs inside the loop.
- The receiver's bind-address selection (src/server/main.rs:29-33) is socket plumbing.
- `create_dir_all`, `OpenOptions` and `write_all` are file-system I/O. The archive is a map from file name to contents with append semantics. Open and write failures are not modelled.
- The receiver's loop is endless. `Serve` models a finite run over a given sequence of arrivals, and receive failures are not modelled.
- `println!` and `eprintln!` output is formatting for humans. The printed values (protocol, send or arrival time in microseconds, byte sum, source address, size) are the fields of `Sender.Iteration` and `Receiver.Report`. The text of socket error messages is not kept: a failure is only `SocketFailed` or `SendFailed`.
- The `unsafe` `MaybeUninit` receive buffer is a byte sequence. Only its first `size` bytes are read.
- The byte sum is a mathematical natural. The `u64` overflow, which would need a payload near 2^64 bytes, is not modelled.
