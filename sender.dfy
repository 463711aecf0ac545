/**
  The sender: one frame per iteration over `0..=num_packets`, each carrying a
  payload one marker byte longer than the last. The clock readings, socket
  creation and the result of each send are not computed here: they are the
  `Attempt` the surrounding world supplies for that iteration.
 */
module Sender {
  import opened Bytes
  import opened Wrappers
  import opened FrameCodec

  datatype FrameKind = Hdp | Udp

  /** What the world does during one call of `send_packet`. */
  datatype Attempt = Attempt(
    socketOk: bool,        // the raw socket could be created
    frameClockNanos: nat,  // nanoseconds since the epoch read while building an HDP frame
    sendClockNanos: nat,   // nanoseconds since the epoch read just before the send
    sendOk: bool)          // the transport accepted the frame

  datatype Transmission =
    | SocketFailed
    | SendFailed(frame: seq<byte>)
    | Sent(frame: seq<byte>, sendMicros: nat, byteSum: nat)

  datatype Iteration = Iteration(protocol: int, delayMillis: nat, payload: seq<byte>, transmission: Transmission)

  /** The protocol number argument that asks for cycling through every protocol. */
  const CycleAll: int := -1
  const IpHeaderAllowance: nat := 20
  const Marker: byte := 1

  /** The frame-kind argument; any other token is unsupported. */
  function ParseFrameKind(token: string): (r: Option<FrameKind>)
    ensures r == Some(Hdp) <==> token == "hdp"
    ensures r == Some(Udp) <==> token == "udp"
    ensures r.None? <==> token != "hdp" && token != "udp"
  {
    if token == "hdp" then Some(Hdp)
    else if token == "udp" then Some(Udp)
    else None
  }

  /** The protocol number used at iteration `i`. */
  function ProtocolAt(ipProtocol: int, i: nat): (r: int)
    ensures ipProtocol == CycleAll ==> 0 <= r < 256 && (i < 256 ==> r == i)
    ensures ipProtocol != CycleAll ==> r == ipProtocol
  {
    if ipProtocol == CycleAll then i % 256 else ipProtocol
  }

  /** In cycling mode the protocol number repeats every 256 iterations. */
  lemma ProtocolCycles(i: nat)
    ensures ProtocolAt(CycleAll, i + 256) == ProtocolAt(CycleAll, i)
    ensures ProtocolAt(CycleAll, i) == i - 256 * (i / 256)
  {
  }

  /** The pause before iteration `i`, in milliseconds. */
  function DelayMillis(i: nat): (r: nat)
    ensures 200 <= r <= 349
    ensures i < 150 ==> r == 200 + i
  {
    200 + i % 150
  }

  /** The pause repeats every 150 iterations. */
  lemma DelayCycles(i: nat)
    ensures DelayMillis(i + 150) == DelayMillis(i)
    ensures DelayMillis(i) == 200 + i - 150 * (i / 150)
  {
  }

  /** Rust's `as i32` on a `u32`: values from 2^31 up wrap to negatives. */
  function AsI32(n: nat): (r: int)
    requires n < 0x1_0000_0000
    ensures -0x8000_0000 <= r < 0x8000_0000
    ensures r % 0x1_0000_0000 == n
  {
    if n < 0x8000_0000 then n else n - 0x1_0000_0000
  }

  /** The number of iterations of `for i in 0..=num_packets as i32`. */
  function IterationCount(numPackets: nat): (r: nat)
    requires numPackets < 0x1_0000_0000
    ensures numPackets < 0x8000_0000 ==> r == numPackets + 1
    ensures numPackets >= 0x8000_0000 ==> r == 0
  {
    var last := AsI32(numPackets);
    if last < 0 then 0 else last + 1
  }

  function HeaderLength(kind: FrameKind): nat {
    match kind
    case Hdp => HdpHeaderLength
    case Udp => UdpHeaderLength
  }

  /** The frame the sender builds for `kind`: its header, then the payload. */
  function Frame(kind: FrameKind, payload: seq<byte>, nowNanos: nat): (r: seq<byte>)
    ensures |r| == HeaderLength(kind) + |payload| && r[HeaderLength(kind)..] == payload
  {
    match kind
    case Hdp => HdpPacket(payload, nowNanos)
    case Udp => UdpPacket(payload)
  }

  /**
    The accounted size of a frame: an IP header allowance, the frame header
    and the payload. It is always the allowance plus the length of the frame
    actually built, whatever the clock read.
   */
  function ByteSum(kind: FrameKind, payloadLength: nat): (r: nat)
    ensures forall p: seq<byte>, t: nat :: |p| == payloadLength ==>
      r == IpHeaderAllowance + |Frame(kind, p, t)|
  {
    match kind
    case Hdp => IpHeaderAllowance + HdpHeaderLength + payloadLength
    case Udp => IpHeaderAllowance + UdpHeaderLength + payloadLength
  }

  /** What one call of `send_packet` yields in the world `w`. */
  function Transmit(kind: FrameKind, payload: seq<byte>, w: Attempt): (r: Transmission)
    ensures r.SocketFailed? <==> !w.socketOk
    ensures r.Sent? <==> w.socketOk && w.sendOk
    ensures !r.SocketFailed? ==> r.frame == Frame(kind, payload, w.frameClockNanos)
    ensures r.Sent? ==> r.byteSum == IpHeaderAllowance + |r.frame| && r.sendMicros == w.sendClockNanos / 1000
  {
    if !w.socketOk then SocketFailed
    else
      var frame := Frame(kind, payload, w.frameClockNanos);
      if !w.sendOk then SendFailed(frame)
      else Sent(frame, w.sendClockNanos / 1000, ByteSum(kind, |payload|))
  }

  /** Create the socket, build the frame, read the clock, send, and account the bytes. */
  method SendPacket(kind: FrameKind, payload: seq<byte>, w: Attempt) returns (t: Transmission)
    ensures t == Transmit(kind, payload, w)
    ensures t.SocketFailed? <==> !w.socketOk
    ensures t.Sent? <==> w.socketOk && w.sendOk
    ensures t.Sent? ==> t.byteSum == IpHeaderAllowance + |t.frame|
  {
    if !w.socketOk {
      return SocketFailed;
    }
    var packet;
    match kind {
      case Hdp => packet := BuildHdpPacket(payload, w.frameClockNanos);
      case Udp => packet := BuildUdpPacket(payload);
    }
    var time := w.sendClockNanos;
    if !w.sendOk {
      return SendFailed(packet);
    }
    var byteSum := ByteSum(kind, |payload|);
    t := Sent(packet, time / 1000, byteSum);
  }

  /** `n` marker bytes. */
  function Markers(n: nat): (r: seq<byte>)
    ensures |r| == n && forall k :: 0 <= k < n ==> r[k] == Marker
  {
    if n == 0 then [] else Markers(n - 1) + [Marker]
  }

  /** Iteration `i` of the sender's loop. */
  function IterationAt(ipProtocol: int, kind: FrameKind, world: nat -> Attempt, i: nat): (r: Iteration)
    ensures r.protocol == ProtocolAt(ipProtocol, i) && 200 <= r.delayMillis <= 349
    ensures |r.payload| == i + 1 && forall k :: 0 <= k < |r.payload| ==> r.payload[k] == Marker
    ensures r.transmission.Sent? ==> r.transmission.byteSum == IpHeaderAllowance + |r.transmission.frame|
  {
    var payload := Markers(i + 1);
    Iteration(ProtocolAt(ipProtocol, i), DelayMillis(i), payload, Transmit(kind, payload, world(i)))
  }

  /** Each iteration's payload extends the previous one by exactly one marker byte. */
  lemma PayloadGrowsByOne(ipProtocol: int, kind: FrameKind, world: nat -> Attempt, i: nat)
    requires i > 0
    ensures IterationAt(ipProtocol, kind, world, i).payload
         == IterationAt(ipProtocol, kind, world, i - 1).payload + [Marker]
  {
  }

  /**
    The sender's main loop. An unsupported frame-kind token panics in the
    first iteration, after its delay and its marker byte, before any send.
   */
  method RunSender(numPackets: nat, ipProtocol: int, frameKind: string, world: nat -> Attempt)
    returns (log: seq<Iteration>, panicked: bool)
    requires numPackets < 0x1_0000_0000
    ensures panicked <==> ParseFrameKind(frameKind).None? && IterationCount(numPackets) > 0
    ensures panicked ==> log == []
    ensures !panicked ==> |log| == IterationCount(numPackets)
    ensures forall i :: 0 <= i < |log| ==>
      ParseFrameKind(frameKind).Some? && log[i] == IterationAt(ipProtocol, ParseFrameKind(frameKind).value, world, i)
    ensures forall i :: 0 <= i < |log| ==>
      |log[i].payload| == i + 1 && log[i].protocol == ProtocolAt(ipProtocol, i)
    ensures forall i :: 0 < i < |log| ==> log[i].payload == log[i - 1].payload + [Marker]
    ensures forall i :: 0 <= i < |log| ==> log[i].transmission.Sent? ==>
      log[i].transmission.byteSum == IpHeaderAllowance + |log[i].transmission.frame|
  {
    var cycleBetweenAllProtocols := ipProtocol == CycleAll;
    var buffer: seq<byte> := [];
    var count := IterationCount(numPackets);
    log, panicked := [], false;
    var i := 0;
    while i < count
      invariant 0 <= i <= count
      invariant |log| == i && buffer == Markers(i)
      invariant i > 0 ==> ParseFrameKind(frameKind).Some?
      invariant forall k :: 0 <= k < i ==>
        ParseFrameKind(frameKind).Some? && log[k] == IterationAt(ipProtocol, ParseFrameKind(frameKind).value, world, k)
    {
      var protocolNumber := if cycleBetweenAllProtocols then i % 256 else ipProtocol;
      var delay := 200 + i % 150;
      buffer := buffer + [Marker];
      var kind := ParseFrameKind(frameKind);
      if kind.None? {
        panicked := true;
        break;
      }
      var t := SendPacket(kind.value, buffer, world(i));
      log := log + [Iteration(protocolNumber, delay, buffer, t)];
      i := i + 1;
    }
  }

  /** A run with two packets, protocol 17 and UDP-shaped frames sends three frames, all on protocol 17. */
  method ThreeUdpIterations(world: nat -> Attempt) returns (log: seq<Iteration>)
    ensures |log| == 3
    ensures forall i :: 0 <= i < 3 ==> log[i].protocol == 17 && log[i].payload == Markers(i + 1)
    ensures forall i :: 0 <= i < 3 ==> log[i].transmission.Sent? ==>
      log[i].transmission.frame == UdpPacket(Markers(i + 1))
  {
    var panicked;
    log, panicked := RunSender(2, 17, "udp", world);
  }
}
