/**
  The sender's two frame layouts. An HDP frame is a 12-byte header (source
  port, destination port, 64-bit nanosecond timestamp, all big-endian)
  followed by the payload; a UDP-shaped frame is an 8-byte header (source
  port, destination port, 16-bit length, 16-bit checksum that is always zero)
  followed by the payload.
 */
module FrameCodec {
  import opened Bytes
  import opened Wrappers

  /** Both ports of every frame the sender builds. */
  const Port: u16 := 420
  const HdpHeaderLength: nat := 12
  const UdpHeaderLength: nat := 8

  datatype HdpFrame = HdpFrame(srcPort: u16, dstPort: u16, timestamp: u64, data: seq<byte>)

  datatype UdpFrame = UdpFrame(srcPort: u16, dstPort: u16, length: u16, checksum: u16, data: seq<byte>)

  datatype DecodeError = TruncatedFrame

  /** The wire form of an HDP frame. */
  function HdpBytes(f: HdpFrame): (r: seq<byte>)
    ensures |r| == HdpHeaderLength + |f.data|
  {
    BeBytes(f.srcPort, 2) + BeBytes(f.dstPort, 2) + BeBytes(f.timestamp, 8) + f.data
  }

  /** The wire form of a UDP-shaped frame. */
  function UdpBytes(f: UdpFrame): (r: seq<byte>)
    ensures |r| == UdpHeaderLength + |f.data|
  {
    BeBytes(f.srcPort, 2) + BeBytes(f.dstPort, 2) + BeBytes(f.length, 2) + BeBytes(f.checksum, 2) + f.data
  }

  /** Rust's `as u64` on the clock's nanosecond count: keep the low 64 bits. */
  function TruncateU64(n: nat): (r: u64)
    ensures n < U64Modulus ==> r == n
  {
    n % U64Modulus
  }

  /** Rust's `as u16` on the frame length: keep the low 16 bits. */
  function TruncateU16(n: nat): (r: u16)
    ensures n < U16Modulus ==> r == n
  {
    n % U16Modulus
  }

  /** The HDP frame the sender builds around `payload` when the clock reads `nowNanos`. */
  function HdpPacket(payload: seq<byte>, nowNanos: nat): (r: seq<byte>)
    ensures |r| == HdpHeaderLength + |payload| && r[HdpHeaderLength..] == payload
    ensures DecodeHdp(r) == Ok(HdpFrame(Port, Port, TruncateU64(nowNanos), payload))
  {
    var f := HdpFrame(Port, Port, TruncateU64(nowNanos), payload);
    DecodeHdpOfHdpBytes(f);
    HdpBytes(f)
  }

  /** The UDP-shaped frame the sender builds around `payload`. */
  function UdpPacket(payload: seq<byte>): (r: seq<byte>)
    ensures |r| == UdpHeaderLength + |payload| && r[UdpHeaderLength..] == payload
    ensures DecodeUdp(r) == Ok(UdpFrame(Port, Port, TruncateU16(UdpHeaderLength + |payload|), 0, payload))
  {
    var f := UdpFrame(Port, Port, TruncateU16(UdpHeaderLength + |payload|), 0, payload);
    DecodeUdpOfUdpBytes(f);
    UdpBytes(f)
  }

  /** Builds the HDP frame by successive appends to an empty buffer. */
  method BuildHdpPacket(payload: seq<byte>, nowNanos: nat) returns (packet: seq<byte>)
    ensures packet == HdpPacket(payload, nowNanos)
    ensures |packet| == HdpHeaderLength + |payload| && packet[HdpHeaderLength..] == payload
  {
    packet := [];
    var srcPort: u16 := Port;
    packet := packet + BeBytes(srcPort, 2);
    var dstPort: u16 := Port;
    packet := packet + BeBytes(dstPort, 2);
    var timestamp := TruncateU64(nowNanos);
    packet := packet + BeBytes(timestamp, 8);
    packet := packet + payload;
  }

  /** Builds the UDP-shaped frame by successive appends to an empty buffer. */
  method BuildUdpPacket(payload: seq<byte>) returns (packet: seq<byte>)
    ensures packet == UdpPacket(payload)
    ensures |packet| == UdpHeaderLength + |payload| && packet[UdpHeaderLength..] == payload
  {
    packet := [];
    var srcPort: u16 := Port;
    packet := packet + BeBytes(srcPort, 2);
    var dstPort: u16 := Port;
    packet := packet + BeBytes(dstPort, 2);
    var length := TruncateU16(UdpHeaderLength + |payload|);
    packet := packet + BeBytes(length, 2);
    var checksum: u16 := 0;
    packet := packet + BeBytes(checksum, 2);
    packet := packet + payload;
  }

  /** Reads the fields of an HDP frame back; fails on fewer than 12 bytes. */
  function DecodeHdp(b: seq<byte>): (r: Result<HdpFrame, DecodeError>)
    ensures r.Err? <==> |b| < HdpHeaderLength
  {
    if |b| < HdpHeaderLength then Err(TruncatedFrame)
    else
      Pow256Widths();
      Ok(HdpFrame(BeValue(b[0..2]), BeValue(b[2..4]), BeValue(b[4..12]), b[12..]))
  }

  /** Reads the fields of a UDP-shaped frame back; fails on fewer than 8 bytes. */
  function DecodeUdp(b: seq<byte>): (r: Result<UdpFrame, DecodeError>)
    ensures r.Err? <==> |b| < UdpHeaderLength
  {
    if |b| < UdpHeaderLength then Err(TruncatedFrame)
    else
      Pow256Widths();
      Ok(UdpFrame(BeValue(b[0..2]), BeValue(b[2..4]), BeValue(b[4..6]), BeValue(b[6..8]), b[8..]))
  }

  /** Decoding undoes encoding on every HDP frame. */
  lemma DecodeHdpOfHdpBytes(f: HdpFrame)
    ensures DecodeHdp(HdpBytes(f)) == Ok(f)
  {
    var b := HdpBytes(f);
    assert b[0..2] == BeBytes(f.srcPort, 2);
    assert b[2..4] == BeBytes(f.dstPort, 2);
    assert b[4..12] == BeBytes(f.timestamp, 8);
    assert b[12..] == f.data;
    Pow256Widths();
    BeRoundTrip(f.srcPort, 2);
    BeRoundTrip(f.dstPort, 2);
    BeRoundTrip(f.timestamp, 8);
  }

  /** Every successfully decoded HDP frame re-encodes to exactly the bytes it came from. */
  lemma HdpBytesOfDecodeHdp(b: seq<byte>)
    requires DecodeHdp(b).Ok?
    ensures HdpBytes(DecodeHdp(b).value) == b
  {
    BeBytesOfBeValue(b[0..2]);
    BeBytesOfBeValue(b[2..4]);
    BeBytesOfBeValue(b[4..12]);
    assert b == b[0..2] + b[2..4] + b[4..12] + b[12..];
  }

  /** Decoding undoes encoding on every UDP-shaped frame. */
  lemma DecodeUdpOfUdpBytes(f: UdpFrame)
    ensures DecodeUdp(UdpBytes(f)) == Ok(f)
  {
    var b := UdpBytes(f);
    assert b[0..2] == BeBytes(f.srcPort, 2);
    assert b[2..4] == BeBytes(f.dstPort, 2);
    assert b[4..6] == BeBytes(f.length, 2);
    assert b[6..8] == BeBytes(f.checksum, 2);
    assert b[8..] == f.data;
    Pow256Widths();
    BeRoundTrip(f.srcPort, 2);
    BeRoundTrip(f.dstPort, 2);
    BeRoundTrip(f.length, 2);
    BeRoundTrip(f.checksum, 2);
  }

  /** Every successfully decoded UDP-shaped frame re-encodes to exactly the bytes it came from. */
  lemma UdpBytesOfDecodeUdp(b: seq<byte>)
    requires DecodeUdp(b).Ok?
    ensures UdpBytes(DecodeUdp(b).value) == b
  {
    BeBytesOfBeValue(b[0..2]);
    BeBytesOfBeValue(b[2..4]);
    BeBytesOfBeValue(b[4..6]);
    BeBytesOfBeValue(b[6..8]);
    assert b == b[0..2] + b[2..4] + b[4..6] + b[6..8] + b[8..];
  }

  /** The byte layout of the sender's HDP frame. */
  lemma HdpPacketLayout(payload: seq<byte>, nowNanos: nat)
    ensures var p := HdpPacket(payload, nowNanos);
      && |p| == HdpHeaderLength + |payload|
      && p[0..2] == [0x01, 0xA4] && p[2..4] == [0x01, 0xA4]
      && BeValue(p[4..12]) == nowNanos % U64Modulus
      && (nowNanos < U64Modulus ==> BeValue(p[4..12]) == nowNanos)
      && p[12..] == payload
  {
    var f := HdpFrame(Port, Port, TruncateU64(nowNanos), payload);
    DecodeHdpOfHdpBytes(f);
  }

  /** The byte layout of the sender's UDP-shaped frame. */
  lemma UdpPacketLayout(payload: seq<byte>)
    ensures var p := UdpPacket(payload);
      && |p| == UdpHeaderLength + |payload|
      && p[0..2] == [0x01, 0xA4] && p[2..4] == [0x01, 0xA4]
      && BeValue(p[4..6]) == (UdpHeaderLength + |payload|) % U16Modulus
      && (|payload| <= 65527 ==> BeValue(p[4..6]) == UdpHeaderLength + |payload| == |p|)
      && p[6..8] == [0, 0]
      && p[8..] == payload
  {
    var f := UdpFrame(Port, Port, TruncateU16(UdpHeaderLength + |payload|), 0, payload);
    DecodeUdpOfUdpBytes(f);
  }
}
