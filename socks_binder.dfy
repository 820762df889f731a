/** The SOCKS5 server side of the relay (RFC 1928), as SocksBinder runs it on
    one accepted client connection: the no-authentication method handshake,
    the CONNECT request, the call to the upstream connector, the fixed success
    reply, and then the download copy loop. Deviations from the RFC that the
    code makes on purpose: the method count must be exactly 1, no failure
    reply is ever sent, and BND.ADDR/BND.PORT in the success reply are zeros. */
module SocksBinder {
  import opened JavaLang
  import opened Streams
  import Relay

  /** A Java InetAddress, by its octets. */
  datatype InetAddr = Inet4(octets: seq<byte>) | Inet6(octets: seq<byte>)

  /** A Java InetSocketAddress: a resolved address, or a hostname left unresolved. */
  datatype Destination =
    | Resolved(address: InetAddr, port: int)
    | Unresolved(hostname: seq<byte>, port: int)

  const SOCKS_VERSION: byte := 5
  const CMD_CONNECT: byte := 1
  const ATYP_IPV4: byte := 1
  const ATYP_DOMAIN: byte := 3
  const ATYP_IPV6: byte := 4

  /** VER 5, METHOD 0 (no authentication required). */
  const AUTH_REPLY: seq<byte> := [5, 0]
  /** VER 5, REP 0 (succeeded), RSV, ATYP 1, BND.ADDR 0.0.0.0, BND.PORT 0. */
  const CONNECT_REPLY: seq<byte> := [5, 0, 0, 1, 0, 0, 0, 0, 0, 0]

  /** An IPv6 address of the form ::ffff:a.b.c.d. */
  predicate IsIpv4Mapped(raw: seq<byte>)
    requires |raw| == 16
  {
    (forall i | 0 <= i < 10 :: raw[i] == 0) && raw[10] == 255 && raw[11] == 255
  }

  /** InetAddress.getByAddress: four octets are an IPv4 address; sixteen are
      an IPv6 address, except that an IPv4-mapped one becomes the IPv4
      address it embeds. */
  function GetByAddress(raw: seq<byte>): (a: InetAddr)
    requires |raw| == 4 || |raw| == 16
    ensures a.Inet4? ==> |a.octets| == 4
    ensures a.Inet6? ==> |a.octets| == 16
    ensures a.Inet4? <==> |raw| == 4 || IsIpv4Mapped(raw)
  {
    if |raw| == 4 then Inet4(raw)
    else if IsIpv4Mapped(raw) then Inet4(raw[12..])
    else Inet6(raw)
  }

  /** The sixteen-octet IPv4-mapped form of an IPv4 address names the same
      address as its four octets. */
  lemma MappedFormIsSameAddress(v4: seq<byte>)
    requires |v4| == 4
    ensures GetByAddress([0, 0, 0, 0, 0, 0, 0, 0, 0, 0, 255, 255] + v4) == GetByAddress(v4) == Inet4(v4)
  {
    var raw := [0, 0, 0, 0, 0, 0, 0, 0, 0, 0, 255, 255] + v4;
    assert IsIpv4Mapped(raw);
    assert raw[12..] == v4;
  }

  /** Java's `(hi << 8) | lo` on two InputStream.read() results. */
  function ShiftOr(hi: int, lo: int): (r: int)
    requires -1 <= hi < 256 && -1 <= lo < 256
    ensures 0 <= r <= 0xFFFF <==> hi >= 0 && lo >= 0
    ensures hi >= 0 && lo >= 0 ==> r == BigEndian16(hi, lo)
  {
    if lo == -1 then -1
    else if hi == -1 then lo - 256
    else hi * 256 + lo
  }

  // ---------------------------------------------------------------------
  // Method selection (section 3 of RFC 1928)
  // ---------------------------------------------------------------------

  /** doAuthHandshake's reads on a client that sends `s`: whether it accepts
      and how many bytes it consumes. Reading stops at the first wrong byte. */
  function HandshakeOf(s: seq<byte>): (r: (bool, nat))
    ensures r.0 <==> |s| >= 3 && s[..3] == [SOCKS_VERSION, 1, 0]
    ensures r.0 ==> r.1 == 3
    ensures !r.0 ==> r.1 <= 3 && r.1 <= |s|
  {
    if ReadAt(s, 0) != 5 then (false, Used(s, 1))
    else if ReadAt(s, 1) != 1 then (false, Used(s, 2))
    else if ReadAt(s, 2) != 0 then (false, Used(s, 3))
    else (true, 3)
  }

  /** doAuthHandshake: accepts exactly 05 01 00 and answers 05 00; anything
      else is refused with nothing written. A failed write (IOException,
      which negotiate treats like a refusal) also yields false. */
  method DoAuthHandshake(socket: Socket) returns (ok: bool)
    requires socket.input.Valid()
    modifies socket.input, socket.output
    ensures socket.input.Valid() && socket.output.closed == old(socket.output.closed)
    ensures ok == (HandshakeOf(old(socket.input.Remaining())).0 && !old(socket.output.closed))
    ensures socket.input.Remaining() == old(socket.input.Remaining())[HandshakeOf(old(socket.input.Remaining())).1..]
    ensures socket.output.written == old(socket.output.written) + (if ok then AUTH_REPLY else [])
  {
    var input := socket.input;
    ghost var s := input.Remaining();
    var version := input.Read();
    if version != 5 {
      return false;
    }
    var numAuthMethods := input.Read();
    if numAuthMethods != 1 {
      return false;
    }
    var authMethod := input.Read();
    if authMethod != 0 {
      return false;
    }
    assert s[..3] == [version, numAuthMethods, authMethod];
    ok := socket.output.Write(AUTH_REPLY);
  }

  // ---------------------------------------------------------------------
  // The CONNECT request (sections 4 and 5 of RFC 1928)
  // ---------------------------------------------------------------------

  /** What readConnectRequest returns, and how many bytes it consumed. */
  datatype Parse = Parse(result: Result<Destination>, used: nat)

  /** readConnectRequest on a client that sends `s`. The reserved byte is
      read and ignored. An address cut short by end of stream gives null; a
      domain length read at end of stream (-1) is used as an array size
      (NegativeArraySizeException), and a port cut short makes the port
      expression negative (IllegalArgumentException). Neither exception is
      an IOException, so negotiate does not catch them. */
  function ConnectRequestOf(s: seq<byte>): (p: Parse)
    ensures p.used <= |s|
    ensures ReadAt(s, 0) != SOCKS_VERSION || ReadAt(s, 1) != CMD_CONNECT ==> p.result == Null
    ensures p.result.Value? ==> |s| >= 4 && s[0] == SOCKS_VERSION && s[1] == CMD_CONNECT && s[3] in {ATYP_IPV4, ATYP_DOMAIN, ATYP_IPV6}
    ensures p.result.Value? && s[3] == ATYP_DOMAIN ==>
      |s| >= 5 && var len := s[4] as int;
      7 + len <= |s| && p.used == 7 + len
      && p.result.value == Unresolved(s[5..5 + len], BigEndian16(s[5 + len], s[6 + len]))
    ensures p.result.Value? && s[3] != ATYP_DOMAIN ==>
      var len := if s[3] == ATYP_IPV4 then 4 else 16;
      6 + len <= |s| && p.used == 6 + len
      && p.result.value == Resolved(GetByAddress(s[4..4 + len]), BigEndian16(s[4 + len], s[5 + len]))
  {
    if ReadAt(s, 0) != 5 then Parse(Null, Used(s, 1))
    else if ReadAt(s, 1) != 1 then Parse(Null, Used(s, 2))
    else
      var addressType := ReadAt(s, 3);
      if addressType == 1 || addressType == 4 then
        var len := if addressType == 1 then 4 else 16;
        var q := AddressAndPortOf(s[4..], len, addressType);
        assert q.result.Value? ==> s[4..][..len] == s[4..4 + len];
        Parse(q.result, 4 + q.used)
      else if addressType == 3 then
        var len := ReadAt(s, 4);
        if len < 0 then Parse(Throws(NegativeArraySize), Used(s, 5))
        else
          var q := AddressAndPortOf(s[5..], len, addressType);
          assert q.result.Value? ==> s[5..][..len] == s[5..5 + len];
          Parse(q.result, 5 + q.used)
      else Parse(Null, Used(s, 4))
  }

  /** The address bytes at the front of `t` and the two port bytes after them. */
  function AddressAndPortOf(t: seq<byte>, len: nat, addressType: int): (p: Parse)
    requires addressType == 3 || ((addressType == 1 || addressType == 4) && (len == 4 || len == 16))
    ensures p.used <= |t|
    ensures p.result.Value? ==> len + 2 <= |t| && p.used == len + 2
    ensures p.result.Value? && addressType == 3 ==> p.result.value == Unresolved(t[..len], BigEndian16(t[len], t[len + 1]))
    ensures p.result.Value? && addressType != 3 ==> p.result.value == Resolved(GetByAddress(t[..len]), BigEndian16(t[len], t[len + 1]))
  {
    if len > |t| then Parse(Null, |t|)
    else
      var port := ShiftOr(ReadAt(t, len), ReadAt(t, len + 1));
      var used := Used(t, len + 2);
      if port < 0 || port > 0xFFFF then Parse(Throws(IllegalArgument), used)
      else
        var raw := t[..len];
        Parse(Value(if addressType == 3 then Unresolved(raw, port) else Resolved(GetByAddress(raw), port)), used)
  }

  /** readConnectRequest, one read at a time. */
  method ReadConnectRequest(up: InStream) returns (r: Result<Destination>)
    requires up.Valid()
    modifies up
    ensures up.Valid()
    ensures r == ConnectRequestOf(old(up.Remaining())).result
    ensures up.pos == old(up.pos) + ConnectRequestOf(old(up.Remaining())).used
  {
    ghost var s := up.Remaining();
    var version := up.Read();
    if version != 5 {
      return Null;
    }
    var cmd := up.Read();
    if cmd != 1 {
      return Null;
    }
    var reserved := up.Read();
    var addressType := up.Read();
    if addressType == 1 || addressType == 4 {
      assert up.Remaining() == s[4..];
      r := ReadAddressAndPort(up, if addressType == 1 then 4 else 16, addressType);
    } else if addressType == 3 {
      var len := up.Read();
      if len < 0 {
        return Throws(NegativeArraySize);
      }
      assert up.Remaining() == s[5..];
      r := ReadAddressAndPort(up, len, addressType);
    } else {
      return Null;
    }
  }

  /** The rest of readConnectRequest once the address length is known: the
      address is gathered by a loop of bulk reads, each of which may deliver
      only part of it, then the port is read byte by byte. */
  method ReadAddressAndPort(up: InStream, len: nat, addressType: int) returns (r: Result<Destination>)
    requires up.Valid()
    requires addressType == 3 || ((addressType == 1 || addressType == 4) && (len == 4 || len == 16))
    modifies up
    ensures up.Valid()
    ensures r == AddressAndPortOf(old(up.Remaining()), len, addressType).result
    ensures up.pos == old(up.pos) + AddressAndPortOf(old(up.Remaining()), len, addressType).used
  {
    var rawAddress, complete := ReadRawAddress(up, len);
    if !complete {
      return Null;
    }
    var hi := up.Read();
    var lo := up.Read();
    var port := ShiftOr(hi, lo);
    if port < 0 || port > 0xFFFF {
      return Throws(IllegalArgument);
    }
    if addressType == 1 || addressType == 4 {
      return Value(Resolved(GetByAddress(rawAddress[..]), port));
    }
    return Value(Unresolved(rawAddress[..], port));
  }

  /** The loop reading the `len` address octets into a fresh buffer; it
      gives up (`complete` false) once the stream ends first. */
  method ReadRawAddress(up: InStream, len: nat) returns (rawAddress: array<byte>, complete: bool)
    requires up.Valid()
    modifies up
    ensures up.Valid() && fresh(rawAddress)
    ensures complete <==> len <= |old(up.Remaining())|
    ensures complete ==> rawAddress[..] == old(up.Remaining())[..len] && up.pos == old(up.pos) + len
    ensures !complete ==> up.pos == |up.data|
  {
    ghost var p0 := up.pos;
    rawAddress := new byte[len];
    var i := 0;
    while i < len
      invariant up.Valid() && 0 <= i <= len && up.pos == p0 + i
      invariant rawAddress[..i] == up.data[p0..p0 + i]
    {
      var bytes := up.ReadInto(rawAddress, i, len - i);
      if bytes <= 0 {
        return rawAddress, false;
      }
      assert rawAddress[..i + bytes] == rawAddress[..i] + rawAddress[i..i + bytes];
      assert up.data[p0..p0 + i + bytes] == up.data[p0..p0 + i] + up.data[p0 + i..p0 + i + bytes];
      i := i + bytes;
    }
    assert rawAddress[..] == rawAddress[..len];
    return rawAddress, true;
  }

  // ---------------------------------------------------------------------
  // Client-side encoding, for the round trip
  // ---------------------------------------------------------------------

  /** A CONNECT request as a client states it. */
  datatype SocksRequest =
    | Ipv4Request(octets: seq<byte>, port: int)
    | DomainRequest(name: seq<byte>, port: int)
    | Ipv6Request(octets: seq<byte>, port: int)

  predicate WellFormed(r: SocksRequest)
  {
    && 0 <= r.port <= 0xFFFF
    && match r
       case Ipv4Request(a, _) => |a| == 4
       case DomainRequest(n, _) => |n| <= 255
       case Ipv6Request(a, _) => |a| == 16
  }

  /** VER CMD RSV ATYP DST.ADDR DST.PORT, as a client sends it. */
  function EncodeConnectRequest(r: SocksRequest): (e: seq<byte>)
    requires WellFormed(r)
  {
    var address := match r
      case Ipv4Request(a, _) => [ATYP_IPV4] + a
      case DomainRequest(n, _) => [ATYP_DOMAIN, |n|] + n
      case Ipv6Request(a, _) => [ATYP_IPV6] + a;
    [SOCKS_VERSION, CMD_CONNECT, 0] + address + ShortBytes(r.port)
  }

  /** Parsing an encoded request gives back its destination, whatever the
      client sends after it: IPv4 and IPv6 as resolved addresses (an
      IPv4-mapped IPv6 address as the IPv4 address it embeds), a domain name
      unresolved and byte for byte. */
  lemma ConnectRequestRoundTrip(r: SocksRequest, rest: seq<byte>)
    requires WellFormed(r)
    ensures var p := ConnectRequestOf(EncodeConnectRequest(r) + rest);
      && p.used == |EncodeConnectRequest(r)|
      && p.result == Value(match r
           case Ipv4Request(a, port) => Resolved(Inet4(a), port)
           case DomainRequest(n, port) => Unresolved(n, port)
           case Ipv6Request(a, port) =>
             Resolved(if IsIpv4Mapped(a) then Inet4(a[12..]) else Inet6(a), port))
  {
    var e := EncodeConnectRequest(r);
    var s := e + rest;
    var len := match r
      case Ipv4Request(a, _) => 4
      case DomainRequest(n, _) => |n|
      case Ipv6Request(a, _) => 16;
    var start := if r.DomainRequest? then 5 else 4;
    assert |e| == start + len + 2;
    assert s[..|e|] == e;
    assert s[start..start + len] == match r
      case Ipv4Request(a, _) => a
      case DomainRequest(n, _) => n
      case Ipv6Request(a, _) => a;
    assert BigEndian16(s[start + len], s[start + len + 1]) == r.port;
  }

  /** A request cut off by end of stream never yields a partial address:
      cut inside the address it gives null; cut inside the port, the
      IllegalArgumentException of a negative port; cut right after a domain
      address type, the NegativeArraySizeException of a length of -1. */
  lemma TruncatedConnectRequest(r: SocksRequest, k: nat)
    requires WellFormed(r) && 4 <= k < |EncodeConnectRequest(r)|
    ensures var e := EncodeConnectRequest(r);
      var addressEnd := |e| - 2;
      var p := ConnectRequestOf(e[..k]);
      && (r.DomainRequest? && k == 4 ==> p.result == Throws(NegativeArraySize))
      && ((r.DomainRequest? ==> k > 4) && k < addressEnd ==> p.result == Null)
      && (addressEnd <= k ==> p.result == Throws(IllegalArgument))
      && !p.result.Value?
  {
    var e := EncodeConnectRequest(r);
    assert e[..k][..4] == e[..4];
    if r.DomainRequest? && k > 4 {
      assert e[..k][4] == |r.name|;
    }
  }

  // ---------------------------------------------------------------------
  // The whole negotiation
  // ---------------------------------------------------------------------

  /** How negotiate ends: it returns true (the relay is running), returns
      false, or lets an unchecked exception escape. */
  datatype Negotiation = Established(destination: Destination) | Refused | Crashed(exception: Exception)

  /** negotiate's visible effect on a client that sends `s`: the outcome, the
      bytes written back to the client, and the bytes consumed. `writable`
      says whether the client socket still takes writes; `connects` stands
      for SocksCallback.connect, which succeeds or returns null. */
  function NegotiationOf(s: seq<byte>, writable: bool, connects: Destination -> bool): (r: (Negotiation, seq<byte>, nat))
    ensures r.2 <= |s|
    ensures r.1 == AUTH_REPLY + CONNECT_REPLY <==> r.0.Established?
    ensures r.1 == [] <==> !HandshakeOf(s).0 || !writable
    ensures r.0.Established? ==>
      && HandshakeOf(s).0 && writable && connects(r.0.destination)
      && ConnectRequestOf(s[3..]).result == Value(r.0.destination)
  {
    var (accepted, used) := HandshakeOf(s);
    if !accepted || !writable then (Refused, [], used)
    else
      var p := ConnectRequestOf(s[3..]);
      match p.result
      case Null => (Refused, AUTH_REPLY, 3 + p.used)
      case Throws(e) => (Crashed(e), AUTH_REPLY, 3 + p.used)
      case Value(d) =>
        if connects(d) then (Established(d), AUTH_REPLY + CONNECT_REPLY, 3 + p.used)
        else (Refused, AUTH_REPLY, 3 + p.used)
  }

  /** negotiate: handshake, request, connector, success reply; every failure
      before the reply returns false with no SOCKS error reply. On success
      the caller goes on with RelayDownload. */
  method Negotiate(socket: Socket, connects: Destination -> bool) returns (outcome: Negotiation)
    requires socket.input.Valid()
    modifies socket.input, socket.output
    ensures socket.input.Valid()
    ensures var r := NegotiationOf(old(socket.input.Remaining()), !old(socket.output.closed), connects);
      && outcome == r.0
      && socket.output.written == old(socket.output.written) + r.1
      && socket.input.pos == old(socket.input.pos) + r.2
  {
    ghost var s := socket.input.Remaining();
    ghost var p0 := socket.input.pos;
    var handshaken := DoAuthHandshake(socket);
    if !handshaken {
      return Refused;
    }
    assert socket.input.Remaining() == s[3..];
    var destination := ReadConnectRequest(socket.input);
    match destination {
      case Null =>
        return Refused;
      case Throws(e) =>
        return Crashed(e);
      case Value(d) =>
        if !connects(d) {
          return Refused;
        }
        // the output took the method reply, so it is still open
        var _ := socket.output.Write(CONNECT_REPLY);
        return Established(d);
    }
  }

  /** The download thread negotiate starts: every byte the upstream sends
      goes to the client, in order and unchanged; at end of stream the
      client's output and socket are closed. */
  method RelayDownload(downIn: InStream, socket: Socket)
    requires downIn.Valid() && !socket.output.closed
    modifies downIn, socket, socket.output
    ensures socket.output.written == old(socket.output.written) + old(downIn.Remaining())
    ensures socket.output.closed && socket.closed
  {
    Relay.CopyUntilEnd(downIn, socket);
  }

  /** The exchange of a client asking for 127.0.0.1:80: the server answers
      05 00, then the ten-byte success reply. */
  lemma LoopbackExchange(connects: Destination -> bool)
    requires connects(Resolved(Inet4([127, 0, 0, 1]), 80))
    ensures NegotiationOf([5, 1, 0, 5, 1, 0, 1, 127, 0, 0, 1, 0, 80], true, connects)
      == (Established(Resolved(Inet4([127, 0, 0, 1]), 80)), [5, 0, 5, 0, 0, 1, 0, 0, 0, 0, 0, 0], 13)
  {
    var s: seq<byte> := [5, 1, 0, 5, 1, 0, 1, 127, 0, 0, 1, 0, 80];
    assert s[..3] == [5, 1, 0];
    assert HandshakeOf(s) == (true, 3);
    assert s[3..] == [5, 1, 0, 1, 127, 0, 0, 1, 0, 80];
    LoopbackConnectRequest();
    assert AUTH_REPLY + CONNECT_REPLY == [5, 0, 5, 0, 0, 1, 0, 0, 0, 0, 0, 0];
  }

  /** The connect request of LoopbackExchange, read on its own. */
  lemma LoopbackConnectRequest()
    ensures ConnectRequestOf([5, 1, 0, 1, 127, 0, 0, 1, 0, 80]) == Parse(Value(Resolved(Inet4([127, 0, 0, 1]), 80)), 10)
  {
    var t: seq<byte> := [5, 1, 0, 1, 127, 0, 0, 1, 0, 80];
    assert t[4..] == [127, 0, 0, 1, 0, 80];
    assert t[4..][..4] == [127, 0, 0, 1];
    assert GetByAddress([127, 0, 0, 1]) == Inet4([127, 0, 0, 1]);
  }
}
