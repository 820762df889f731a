/** DnsUdpToSocksResolver: a local UDP DNS endpoint that forwards each query
    over TCP, through the SOCKS server, to a public resolver, using the
    two-octet length prefix of DNS over TCP (section 4.2.2 of RFC 1035), and
    sends the resolver's reply back to the asking UDP client unchanged. The
    receive loop copies each datagram out of its shared receive buffer and
    hands the copy to a worker. */
module DnsUdpToSocks {
  import opened JavaLang
  import opened Streams
  import opened DnsHeader

  /** The receive buffer size, the largest UDP payload. */
  const MAX_BUFFER_SIZE: nat := 65535
  const DEFAULT_DNS_PORT: nat := 53

  // ---------------------------------------------------------------------
  // Framing
  // ---------------------------------------------------------------------

  /** A DNS message as DNS over TCP carries it: its length in two octets,
      big-endian, then the message. */
  function Frame(payload: seq<byte>): (f: seq<byte>)
    requires |payload| < 0x1_0000
    ensures |f| == |payload| + 2 && f[2..] == payload
    ensures BigEndian16(f[0], f[1]) == |payload|
  {
    ShortBytes(|payload|) + payload
  }

  /** writeUdpPacketToStream: writeShort(length), then the whole packet
      buffer (which is exactly the packet), then flush. An IOException gives
      false. */
  method WriteUdpPacketToStream(output: OutStream, packet: seq<byte>) returns (ok: bool)
    requires |packet| <= MAX_BUFFER_SIZE
    modifies output
    ensures ok == !old(output.closed) && output.closed == old(output.closed)
    ensures output.written == old(output.written) + (if ok then Frame(packet) else [])
  {
    var prefix := ShortBytes(|packet|);
    ok := output.Write(prefix);
    if !ok {
      return;
    }
    ok := output.Write(packet);
    assert prefix + packet == Frame(packet);
  }

  /** readStreamPayload on a stream holding `s`: what it returns and how many
      bytes it consumes. A stream that ends inside the length prefix gives
      null (EOFException, caught). The prefix is a signed short: 0x8000 and
      above make a negative array size, an exception that is not caught. A
      stream that ends inside the body still returns the whole buffer, the
      missing tail left as zeros (the EOFException from readFully is caught
      and the buffer returned anyway). */
  function PayloadOf(s: seq<byte>): (r: (Result<seq<byte>>, nat))
    ensures r.1 <= |s|
    ensures r.0 == Null <==> |s| < 2
    ensures r.0 == Throws(NegativeArraySize) <==> |s| >= 2 && BigEndian16(s[0], s[1]) >= 0x8000
    ensures r.0.Value? ==> |r.0.value| == BigEndian16(s[0], s[1])
    ensures r.0.Value? && 2 + |r.0.value| <= |s| ==> r.0.value == s[2..2 + |r.0.value|] && r.1 == 2 + |r.0.value|
    ensures r.0.Value? && 2 + |r.0.value| > |s| ==> r.0.value == s[2..] + Zeros(2 + |r.0.value| - |s|) && r.1 == |s|
  {
    if |s| < 2 then (Null, |s|)
    else
      var responseBytes := ToShort(BigEndian16(s[0], s[1]));
      if responseBytes < 0 then (Throws(NegativeArraySize), 2)
      else
        var body := s[2..];
        var k := Used(body, responseBytes);
        (Value(body[..k] + Zeros(responseBytes - k)), 2 + k)
  }

  function Zeros(n: nat): (z: seq<byte>)
    ensures |z| == n && forall i | 0 <= i < n :: z[i] == 0
  {
    seq(n, _ => 0)
  }

  /** readStreamPayload. */
  method ReadStreamPayload(input: InStream) returns (r: Result<seq<byte>>)
    requires input.Valid()
    modifies input
    ensures input.Valid()
    ensures r == PayloadOf(old(input.Remaining())).0
    ensures input.Remaining() == old(input.Remaining())[PayloadOf(old(input.Remaining())).1..]
  {
    ghost var s := input.Remaining();
    var ok, responseBytes := input.ReadShort();
    if !ok {
      return Null;
    }
    if responseBytes < 0 {
      return Throws(NegativeArraySize);
    }
    var buffer := new byte[responseBytes](_ => 0);
    ghost var zeros := buffer[..];
    var _ := input.ReadFully(buffer);
    ghost var k := Used(s[2..], responseBytes);
    assert buffer[..] == buffer[..k] + buffer[k..];
    assert zeros[k..] == Zeros(responseBytes - k);
    return Value(buffer[..]);
  }

  /** A frame reads back as the message it carries when the message is
      shorter than 32768 octets, whatever follows it on the stream. */
  lemma FrameRoundTrip(payload: seq<byte>, rest: seq<byte>)
    requires |payload| < 0x8000
    ensures PayloadOf(Frame(payload) + rest) == (Value(payload), |payload| + 2)
  {
    var s := Frame(payload) + rest;
    assert s[2..][..|payload|] == payload;
  }

  /** A message of 32768 octets or more, legal in DNS over TCP, makes the
      reader fail with a negative array size. */
  lemma LongFrameFails(payload: seq<byte>, rest: seq<byte>)
    requires 0x8000 <= |payload| < 0x1_0000
    ensures PayloadOf(Frame(payload) + rest).0 == Throws(NegativeArraySize)
  {
    var s := Frame(payload) + rest;
    assert s[0] == Frame(payload)[0] && s[1] == Frame(payload)[1];
  }

  // ---------------------------------------------------------------------
  // The receive loop
  // ---------------------------------------------------------------------

  /** Where a datagram came from (DatagramPacket.getSocketAddress). */
  datatype SocketAddress = SocketAddress(host: seq<byte>, port: int)

  /** What one DatagramSocket.receive call yields. */
  datatype ReceiveEvent = Received(data: seq<byte>, sender: SocketAddress) | ReceiveFailed

  /** A worker's packet: its own buffer and the sender to answer. */
  datatype Job = Job(buffer: array<byte>, sender: SocketAddress)

  /** DatagramSocket.receive into the shared buffer: the datagram is copied
      to the front of the buffer, cut to the buffer's size; returns the
      length received. */
  method Receive(buffer: array<byte>, data: seq<byte>) returns (length: nat)
    modifies buffer
    ensures length == Used(data, buffer.Length)
    ensures buffer[..length] == data[..length]
  {
    length := Used(data, buffer.Length);
    forall i | 0 <= i < length {
      buffer[i] := data[i];
    }
  }

  /** The datagrams a run of receive events delivers, in order. */
  function Datagrams(events: seq<ReceiveEvent>): (ds: seq<ReceiveEvent>)
    ensures |ds| <= |events|
    ensures forall i | 0 <= i < |ds| :: ds[i].Received?
  {
    if events == [] then []
    else
      var last := events[|events| - 1];
      Datagrams(events[..|events| - 1]) + (if last.Received? then [last] else [])
  }

  /** The bytes of a datagram that fit the receive buffer. */
  function Truncated(data: seq<byte>): seq<byte>
  {
    data[..Used(data, MAX_BUFFER_SIZE)]
  }

  /** run()'s loop over a run of receive events: each received datagram is
      copied out of the shared receive buffer into a fresh array of exactly
      its length, and the copy goes to a worker; a failed receive is skipped.
      No job is dropped, the pool's queue being unbounded. The copies are
      distinct arrays, none of them the receive buffer, so the receives that
      follow cannot change a queued job's bytes. Without a SOCKS server
      address, run() returns before receiving anything. */
  method ReceiveLoop(events: seq<ReceiveEvent>, hasSocksServer: bool) returns (jobs: seq<Job>)
    ensures !hasSocksServer ==> jobs == []
    ensures hasSocksServer ==> |jobs| == |Datagrams(events)|
    ensures hasSocksServer ==> forall i | 0 <= i < |jobs| ::
      && jobs[i].buffer[..] == Truncated(Datagrams(events)[i].data)
      && jobs[i].sender == Datagrams(events)[i].sender
    ensures forall i | 0 <= i < |jobs| :: fresh(jobs[i].buffer)
    ensures forall i, j | 0 <= i < j < |jobs| :: jobs[i].buffer != jobs[j].buffer
  {
    if !hasSocksServer {
      return [];
    }
    var udpBuffer := new byte[MAX_BUFFER_SIZE];
    jobs := [];
    var e := 0;
    while e < |events|
      invariant 0 <= e <= |events|
      invariant |jobs| == |Datagrams(events[..e])|
      invariant forall i | 0 <= i < |jobs| ::
        && jobs[i].buffer[..] == Truncated(Datagrams(events[..e])[i].data)
        && jobs[i].sender == Datagrams(events[..e])[i].sender
      invariant forall i | 0 <= i < |jobs| :: fresh(jobs[i].buffer) && jobs[i].buffer != udpBuffer
      invariant forall i, j | 0 <= i < j < |jobs| :: jobs[i].buffer != jobs[j].buffer
    {
      DatagramsStep(events, e);
      if events[e].Received? {
        var workerBuffer := CopyDatagram(udpBuffer, events[e].data);
        jobs := jobs + [Job(workerBuffer, events[e].sender)];
      }
      e := e + 1;
    }
    assert events[..e] == events;
  }

  /** One received datagram: receive into the shared buffer, then copy the
      received bytes into a fresh array of exactly that length. */
  method CopyDatagram(udpBuffer: array<byte>, data: seq<byte>) returns (workerBuffer: array<byte>)
    requires udpBuffer.Length == MAX_BUFFER_SIZE
    modifies udpBuffer
    ensures fresh(workerBuffer)
    ensures workerBuffer[..] == Truncated(data)
  {
    var packetLength := Receive(udpBuffer, data);
    workerBuffer := new byte[packetLength];
    forall i | 0 <= i < packetLength {
      workerBuffer[i] := udpBuffer[i];
    }
    assert workerBuffer[..] == udpBuffer[..packetLength];
  }

  /** The datagrams of one more event. */
  lemma DatagramsStep(events: seq<ReceiveEvent>, e: nat)
    requires e < |events|
    ensures Datagrams(events[..e + 1]) ==
      Datagrams(events[..e]) + (if events[e].Received? then [events[e]] else [])
  {
    assert events[..e + 1][..e] == events[..e];
  }

  // ---------------------------------------------------------------------
  // A worker
  // ---------------------------------------------------------------------

  /** How DnsResolverWorker.run ends. */
  datatype WorkerOutcome =
    | NotDns                  // rejected before any connection
    | NoConnection            // the SOCKS connection failed
    | WriteFailed             // the query could not be sent; the socket is left open
    | NoResponse              // no length prefix came back; the socket is closed
    | Crashed(exception: Exception)  // readStreamPayload threw; the socket is left open
    | SendFailed(response: seq<byte>)  // the UDP send failed; the socket is left open
    | Answered(response: seq<byte>, to: SocketAddress)  // the reply went back; the socket is closed

  /** A worker's run for query `packet` from `sender`, given whether the
      SOCKS connection comes up, whether the TCP stream takes writes, what
      the resolver sends back (`reply`) and whether the UDP send succeeds:
      the outcome, the bytes written to the resolver, the reply bytes
      consumed and whether the TCP socket gets closed. */
  function WorkerRunOf(packet: seq<byte>, sender: SocketAddress, connects: bool, writable: bool,
                       reply: seq<byte>, sends: bool): (r: (WorkerOutcome, seq<byte>, nat, bool))
    requires |packet| <= MAX_BUFFER_SIZE
    ensures r.0.Answered? ==> IsValidDnsRequest(packet) && r.1 == Frame(packet) && r.0.to == sender && r.3
    ensures r.0.Answered? ==> PayloadOf(reply).0 == Value(r.0.response)
    ensures r.1 != [] ==> IsValidDnsRequest(packet) && connects && r.1 == Frame(packet)
    ensures r.3 <==> r.0.NoResponse? || r.0.Answered?
  {
    if !IsValidDnsRequest(packet) then (NotDns, [], 0, false)
    else if !connects then (NoConnection, [], 0, false)
    else if !writable then (WriteFailed, [], 0, false)
    else
      var (payload, used) := PayloadOf(reply);
      match payload
      case Null => (NoResponse, Frame(packet), used, true)
      case Throws(e) => (Crashed(e), Frame(packet), used, false)
      case Value(response) =>
        if sends then (Answered(response, sender), Frame(packet), used, true)
        else (SendFailed(response), Frame(packet), used, false)
  }

  /** DnsResolverWorker.run: check the query, open the SOCKS connection to
      the resolver (`connects` stands for SocksSocket's constructor), write
      the framed query, read the framed reply and send it, unchanged, to the
      sender (`sends` stands for DatagramSocket.send). */
  method WorkerRun(packet: seq<byte>, sender: SocketAddress, connects: bool, tcp: Socket, sends: bool)
    returns (outcome: WorkerOutcome)
    requires |packet| <= MAX_BUFFER_SIZE && tcp.input.Valid()
    modifies tcp, tcp.input, tcp.output
    ensures tcp.input.Valid()
    ensures var r := WorkerRunOf(packet, sender, connects, !old(tcp.output.closed), old(tcp.input.Remaining()), sends);
      && outcome == r.0
      && tcp.output.written == old(tcp.output.written) + r.1
      && tcp.input.pos == old(tcp.input.pos) + r.2
      && tcp.closed == (old(tcp.closed) || r.3)
  {
    if !IsValidDnsRequest(packet) {
      return NotDns;
    }
    if !connects {
      return NoConnection;
    }
    var written := WriteUdpPacketToStream(tcp.output, packet);
    if !written {
      return WriteFailed;
    }
    ghost var before := tcp.input.pos;
    var dnsResponse := ReadStreamPayload(tcp.input);
    assert tcp.input.pos == before + PayloadOf(old(tcp.input.Remaining())).1;
    match dnsResponse {
      case Null =>
        tcp.Close();
        return NoResponse;
      case Throws(e) =>
        return Crashed(e);
      case Value(response) =>
        if !sends {
          return SendFailed(response);
        }
        tcp.Close();
        return Answered(response, sender);
    }
  }

  /** A query answered by a well-behaved resolver goes back to its sender
      byte for byte: the resolver received exactly the framed query, and the
      UDP reply is exactly the message it framed. */
  lemma WorkerRoundTrip(packet: seq<byte>, sender: SocketAddress, response: seq<byte>, rest: seq<byte>)
    requires |packet| <= MAX_BUFFER_SIZE && IsValidDnsRequest(packet) && |response| < 0x8000
    ensures WorkerRunOf(packet, sender, true, true, Frame(response) + rest, true)
      == (Answered(response, sender), Frame(packet), |response| + 2, true)
  {
    FrameRoundTrip(response, rest);
  }
}
