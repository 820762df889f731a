/** DnsResolverService: a local UDP DNS endpoint that answers each query by
    asking Google's DNS-over-HTTPS resolver, through the SOCKS server, for the
    raw answer to the query's name. The pieces modelled here are the parsing
    of the stored SOCKS server address, the query's name and ID, the HTTP
    request that is written, the minimal HTTP response reader, and the
    rewrite of the answer's ID to the query's. The header check it applies to
    each datagram is DnsHeader.ValidateDnsRequest. */
module DnsResolverService {
  import opened JavaLang
  import opened Streams
  import DnsHeader
  import DnsProto

  const DNS_HEADER_SIZE: nat := 12

  const HTTP_HEADER_RESPONSE_CODE_OK: seq<byte> := Ascii("200 OK")
  const HTTP_HEADER_CONTENT_LENGTH: seq<byte> := Ascii("Content-Length: ")

  // ---------------------------------------------------------------------
  // The SOCKS server address
  // ---------------------------------------------------------------------

  /** An InetSocketAddress built from a host text and a port. */
  datatype SocketAddress = SocketAddress(host: seq<byte>, port: int)

  /** getSocksServerAddress on the stored "ip:port" text: null when nothing
      is stored; otherwise the text is cut at its first colon. No colon makes
      substring(0, -1) throw, a port that Integer.parseInt rejects throws
      NumberFormatException, and a port outside 0..65535 makes the
      InetSocketAddress constructor throw IllegalArgumentException. */
  function GetSocksServerAddress(stored: Option<seq<byte>>): (r: Result<SocketAddress>)
    ensures r.Null? <==> stored.None?
    ensures stored.Some? && IndexOf(stored.value, COLON) < 0 ==> r == Throws(StringIndexOutOfBounds)
    ensures r.Value? ==>
      var s := stored.value;
      var h := |r.value.host|;
      && h < |s| && s[h] == COLON && s[..h] == r.value.host
      && (forall j | 0 <= j < h :: s[j] != COLON)
      && ParseInt(s[h + 1..]) == Some(r.value.port)
      && 0 <= r.value.port < 0x1_0000
  {
    if stored.None? then Null
    else
      var s := stored.value;
      var separatorIndex := IndexOf(s, COLON);
      if separatorIndex < 0 then Throws(StringIndexOutOfBounds)
      else
        var port := ParseInt(s[separatorIndex + 1..]);
        if port.None? then Throws(NumberFormat)
        else if port.value < 0 || port.value > 0xFFFF then Throws(IllegalArgument)
        else Value(SocketAddress(s[..separatorIndex], port.value))
  }

  /** Reading back an address stored as "host:port" with a colon-free host
      gives that host and port. */
  lemma SocksServerAddressRoundTrip(host: seq<byte>, port: nat)
    requires forall j | 0 <= j < |host| :: host[j] != COLON
    requires port < 0x1_0000
    ensures GetSocksServerAddress(Some(host + [COLON] + Decimal(port))) == Value(SocketAddress(host, port))
  {
    var s := host + [COLON] + Decimal(port);
    DnsProto.IndexOfIs(s, COLON, |host|);
    assert s[..|host|] == host;
    assert s[|host| + 1..] == Decimal(port);
    ParseIntOfDecimal(port);
  }

  /** An IPv6 literal cannot be stored: the text is cut at its first colon. */
  lemma SocksServerAddressIPv6()
    ensures GetSocksServerAddress(Some([COLON, COLON, 49, COLON, 49, 48, 56, 48])) == Throws(NumberFormat)
  {
    var s: seq<byte> := [COLON, COLON, 49, COLON, 49, 48, 56, 48];
    DnsProto.IndexOfIs(s, COLON, 0);
    assert !IsDigit(s[1..][0]);
  }

  // ---------------------------------------------------------------------
  // The query's name
  // ---------------------------------------------------------------------

  /** The labels from the length octet at position p of d onwards, each
      followed by a dot, as parseDnsRequestName reads them from a ByteBuffer
      over d. The length octet is a Java byte, so 0x80 and above are negative
      and end the name like the zero length does. A length above the
      buffer's limit, that is above |d| and not above what remains, gives
      null; a read past the end throws BufferUnderflowException. */
  function NameFrom(d: seq<byte>, p: nat): (r: Result<seq<byte>>)
    ensures r.Value? ==> p < |d| && |r.value| < |d| - p
    ensures r.Value? && r.value != [] ==> r.value[|r.value| - 1] == DOT
    decreases |d| - p
  {
    if p >= |d| then Throws(BufferUnderflow)
    else
      var labelLength := SignedByte(d[p]);
      if labelLength <= 0 then Value([])
      else if labelLength > |d| then Null
      else if p + 1 + labelLength > |d| then Throws(BufferUnderflow)
      else AfterLabel(d[p + 1..p + 1 + labelLength], NameFrom(d, p + 1 + labelLength))
  }

  /** A label and a dot in front of what the rest of the name gives. */
  function AfterLabel(lbl: seq<byte>, rest: Result<seq<byte>>): (r: Result<seq<byte>>)
    ensures r.Value? <==> rest.Value?
    ensures r.Value? ==> r.value == lbl + [DOT] + rest.value
    ensures !r.Value? ==> r == rest
  {
    match rest
    case Value(t) => Value(lbl + [DOT] + t)
    case _ => rest
  }

  /** parseDnsRequestName as a function of the request's bytes: the
      position is set to the end of the header (which throws
      IllegalArgumentException on a shorter buffer) and the labels read from
      there. */
  function RequestName(d: seq<byte>): Result<seq<byte>>
  {
    if |d| < DNS_HEADER_SIZE then Throws(IllegalArgument) else NameFrom(d, DNS_HEADER_SIZE)
  }

  /** parseDnsRequestName: reads length octets and labels off the buffer's
      position, appending each label and a dot to the name. */
  method ParseDnsRequestName(dnsRequest: array<byte>) returns (r: Result<seq<byte>>)
    ensures r == RequestName(dnsRequest[..])
  {
    ghost var d := dnsRequest[..];
    if dnsRequest.Length < DNS_HEADER_SIZE {
      return Throws(IllegalArgument);
    }
    var position := DNS_HEADER_SIZE;
    if position >= dnsRequest.Length {
      return Throws(BufferUnderflow);
    }
    var nameBuffer: seq<byte> := [];
    var labelLength := SignedByte(dnsRequest[position]);
    position := position + 1;
    PrefixedEmpty(NameFrom(d, position - 1));
    while labelLength > 0
      invariant DNS_HEADER_SIZE < position <= dnsRequest.Length
      invariant labelLength == SignedByte(d[position - 1])
      invariant Prefixed(nameBuffer, NameFrom(d, position - 1)) == RequestName(d)
      decreases dnsRequest.Length - position
    {
      if labelLength > dnsRequest.Length {
        return Null;
      }
      if position + labelLength > dnsRequest.Length {
        return Throws(BufferUnderflow);
      }
      var lbl := dnsRequest[position..position + labelLength];
      assert lbl == d[position..position + labelLength];
      PrefixedAfterLabel(nameBuffer, lbl, NameFrom(d, position + labelLength));
      nameBuffer := nameBuffer + lbl + [DOT];
      position := position + labelLength;
      if position >= dnsRequest.Length {
        return Throws(BufferUnderflow);
      }
      assert dnsRequest[position] == d[position];
      labelLength := SignedByte(dnsRequest[position]);
      position := position + 1;
    }
    assert NameFrom(d, position - 1) == Value([]);
    assert nameBuffer + [] == nameBuffer;
    return Value(nameBuffer);
  }

  lemma PrefixedEmpty(rest: Result<seq<byte>>)
    ensures Prefixed([], rest) == rest
  {
    if rest.Value? {
      assert [] + rest.value == rest.value;
    }
  }

  lemma PrefixedAfterLabel(done: seq<byte>, lbl: seq<byte>, rest: Result<seq<byte>>)
    ensures Prefixed(done, AfterLabel(lbl, rest)) == Prefixed(done + lbl + [DOT], rest)
  {
    if rest.Value? {
      assert done + (lbl + [DOT] + rest.value) == done + lbl + [DOT] + rest.value;
    }
  }

  /** What has been appended so far in front of what is still to come. */
  function Prefixed(done: seq<byte>, rest: Result<seq<byte>>): (r: Result<seq<byte>>)
    ensures r.Value? <==> rest.Value?
    ensures r.Value? ==> r.value == done + rest.value
    ensures !r.Value? ==> r == rest
  {
    match rest
    case Value(t) => Value(done + t)
    case _ => rest
  }

  /** Labels, each followed by a dot. */
  function Dotted(labels: seq<seq<byte>>): seq<byte>
  {
    if |labels| == 0 then [] else labels[0] + [DOT] + Dotted(labels[1..])
  }

  lemma {:induction false} DottedIsJoin(labels: seq<seq<byte>>)
    requires |labels| >= 1
    ensures Dotted(labels) == DnsProto.Join(labels) + [DOT]
    decreases |labels|
  {
    if |labels| > 1 {
      DottedIsJoin(labels[1..]);
    }
  }

  /** Reading the encoding of labels of 1..127 octets, wherever in d it
      sits, gives each label followed by a dot. */
  lemma {:induction false} NameFromLabelEncoding(d: seq<byte>, p: nat, labels: seq<seq<byte>>)
    requires DnsProto.LabelsBelow(labels, 128)
    requires p + |DnsProto.LabelEncoding(labels)| <= |d|
    requires d[p..p + |DnsProto.LabelEncoding(labels)|] == DnsProto.LabelEncoding(labels)
    ensures NameFrom(d, p) == Value(Dotted(labels))
    decreases |labels|
  {
    if |labels| == 0 {
      assert d[p] == d[p..p + 1][0];
    } else {
      var next := DnsProto.FirstLabelAt(d, p, labels);
      NameFromLabelEncoding(d, next, labels[1..]);
      NameFromLabel(d, p, next, Dotted(labels[1..]));
    }
  }

  /** Unfolds the reader at a label of 1..127 octets whose successor, at
      next, reads as t. */
  lemma NameFromLabel(d: seq<byte>, p: nat, next: nat, t: seq<byte>)
    requires p < |d| && 0 < d[p] < 128 && next == p + 1 + d[p] <= |d|
    requires NameFrom(d, next) == Value(t)
    ensures NameFrom(d, p) == Value(d[p + 1..next] + [DOT] + t)
  {
  }

  /** What the C encoder writes, the Java parser reads back as the name
      with a dot appended, provided every label is shorter than 128 octets
      (longer ones read as a negative length). */
  lemma ParseEncodedName(header: seq<byte>, s: seq<byte>, prev: seq<byte>, rest: seq<byte>)
    requires |header| == DNS_HEADER_SIZE && |prev| == |s| + 2
    requires DnsProto.LabelsBelow(DnsProto.Split(s), 128)
    ensures RequestName(header + DnsProto.EncodedName(s, prev) + rest) == Value(s + [DOT])
  {
    var labels := DnsProto.Split(s);
    var e := DnsProto.EncodedName(s, prev);
    var d := header + e + rest;
    DnsProto.EncodeWellFormed(s, prev);
    assert d[DNS_HEADER_SIZE..DNS_HEADER_SIZE + |e|] == e;
    NameFromLabelEncoding(d, DNS_HEADER_SIZE, labels);
    DottedIsJoin(labels);
    DnsProto.JoinSplit(s);
  }

  /** A first label of 128 octets or more reads as the root name: its
      length octet is a negative Java byte. */
  lemma LongLabelReadsAsRoot(header: seq<byte>, l: seq<byte>, rest: seq<byte>)
    requires |header| == DNS_HEADER_SIZE && 128 <= |l| < 256
    ensures RequestName(header + [|l|] + l + rest) == Value([])
  {
    assert (header + [|l|] + l + rest)[DNS_HEADER_SIZE] == |l|;
  }

  /** The length is checked against the whole buffer, not against what
      remains: a 13-octet request announcing a 100-octet label gives null,
      but one announcing a 5-octet label with a single octet left throws. */
  lemma LabelLengthAgainstLimit(header: seq<byte>)
    requires |header| == DNS_HEADER_SIZE
    ensures RequestName(header + [100]) == Null
    ensures RequestName(header + [5, 97]) == Throws(BufferUnderflow)
  {
    assert (header + [100])[DNS_HEADER_SIZE] == 100;
    assert (header + [5, 97])[DNS_HEADER_SIZE] == 5;
  }

  // ---------------------------------------------------------------------
  // The query's ID
  // ---------------------------------------------------------------------

  /** parseDnsRequestId: the first two octets as a big-endian Java short;
      BufferUnderflowException on a shorter buffer. */
  function ParseDnsRequestId(dnsRequest: seq<byte>): (r: Result<int>)
    ensures r.Value? <==> |dnsRequest| >= 2
    ensures !r.Value? ==> r == Throws(BufferUnderflow)
    ensures r.Value? ==> -0x8000 <= r.value < 0x8000 && ShortBytes(r.value) == dnsRequest[..2]
  {
    if |dnsRequest| < 2 then Throws(BufferUnderflow)
    else
      var v := DnsHeader.GetShort(dnsRequest, 0);
      ShortOfOctets(dnsRequest[0], dnsRequest[1]);
      Value(v)
  }

  lemma ShortOfOctets(hi: byte, lo: byte)
    ensures ShortBytes(ToShort(BigEndian16(hi, lo))) == [hi, lo]
  {
    var u := hi * 256 + lo;
    if u < 0x8000 {
      assert u / 256 == hi && u % 256 == lo;
    } else {
      var v := u - 0x1_0000;
      assert v == (hi - 256) * 256 + lo;
      assert v / 256 == hi - 256 && v % 256 == lo;
    }
  }

  lemma OctetsOfShort(v: int)
    requires -0x8000 <= v < 0x8000
    ensures ToShort(BigEndian16(ShortBytes(v)[0], ShortBytes(v)[1])) == v
  {
    var q := v / 256;
    var lo := v % 256;
    assert v == q * 256 + lo;
    assert -128 <= q < 128;
    if v >= 0 {
      assert q % 256 == q;
    } else {
      assert q % 256 == q + 256;
    }
  }

  /** The response with its first two octets replaced by `id`, high octet
      first. */
  function WithId(dnsResponse: seq<byte>, id: int): seq<byte>
    requires |dnsResponse| >= 2
  {
    ShortBytes(id) + dnsResponse[2..]
  }

  /** writeRequestIdToDnsResponse: putShort at position 0. On a response of
      fewer than two octets it throws BufferOverflowException (false here)
      and writes nothing. */
  method WriteRequestIdToDnsResponse(dnsResponse: array<byte>, dnsRequestId: int) returns (ok: bool)
    requires -0x8000 <= dnsRequestId < 0x8000
    modifies dnsResponse
    ensures ok <==> dnsResponse.Length >= 2
    ensures ok ==> dnsResponse[..] == WithId(old(dnsResponse[..]), dnsRequestId)
    ensures !ok ==> dnsResponse[..] == old(dnsResponse[..])
  {
    if dnsResponse.Length < 2 {
      return false;
    }
    var octets := ShortBytes(dnsRequestId);
    dnsResponse[0] := octets[0];
    dnsResponse[1] := octets[1];
    return true;
  }

  /** After the rewrite the response carries the query's ID and nothing
      else of it has changed; rewriting with the ID it already carries
      changes nothing. */
  lemma RequestIdRoundTrip(dnsResponse: seq<byte>, id: int)
    requires |dnsResponse| >= 2 && -0x8000 <= id < 0x8000
    ensures ParseDnsRequestId(WithId(dnsResponse, id)) == Value(id)
    ensures WithId(dnsResponse, id)[2..] == dnsResponse[2..]
    ensures WithId(dnsResponse, ParseDnsRequestId(dnsResponse).value) == dnsResponse
  {
    OctetsOfShort(id);
    var w := WithId(dnsResponse, id);
    assert w[..2] == ShortBytes(id);
    assert dnsResponse == dnsResponse[..2] + dnsResponse[2..];
  }

  // ---------------------------------------------------------------------
  // The HTTP exchange
  // ---------------------------------------------------------------------

  function RequestLine(name: seq<byte>): seq<byte>
  {
    Ascii("GET /resolve?name=") + name + Ascii("&encoding=raw HTTP/1.1")
  }

  const HOST_LINE: seq<byte> := Ascii("Host: dns.google.com")
  const CONNECTION_LINE: seq<byte> := Ascii("Connection: close")

  /** What performDnsHttpRequest's PrintWriter writes: four println calls,
      each line ended by the platform's line separator, a single LF on
      Android. */
  function DnsHttpRequest(name: seq<byte>): (r: seq<byte>)
    ensures |r| >= 2 && r[|r| - 2..] == [LF, LF]
  {
    RequestLine(name) + [LF] + HOST_LINE + [LF] + CONNECTION_LINE + [LF] + [LF]
  }

  /** performDnsHttpRequest. A PrintWriter never throws: if the stream
      fails, the error is only recorded, so a closed stream receives
      nothing and the call still returns normally. */
  method PerformDnsHttpRequest(name: seq<byte>, output: OutStream)
    modifies output
    ensures output.closed == old(output.closed)
    ensures output.written == old(output.written) + (if old(output.closed) then [] else DnsHttpRequest(name))
  {
    var _ := output.Write(DnsHttpRequest(name));
  }

  /** Read line by line, the request is the GET line naming the query, the
      Host line, the Connection line and the empty line that ends it;
      provided the name holds no line break. */
  lemma DnsHttpRequestLines(name: seq<byte>)
    requires NoLineBreak(name)
    ensures LinesOf(DnsHttpRequest(name)) == [RequestLine(name), HOST_LINE, CONNECTION_LINE, []]
  {
    var tail := HOST_LINE + [LF] + CONNECTION_LINE + [LF] + [LF];
    assert DnsHttpRequest(name) == RequestLine(name) + [LF] + tail;
    NoLineBreakInRequestLine(name);
    LinesOfLf(RequestLine(name), tail);
    HeaderLinesOf();
  }

  /** The lines after the GET line. */
  lemma HeaderLinesOf()
    ensures LinesOf(HOST_LINE + [LF] + CONNECTION_LINE + [LF] + [LF]) == [HOST_LINE, CONNECTION_LINE, []]
  {
    var last := CONNECTION_LINE + [LF] + [LF];
    assert HOST_LINE + [LF] + CONNECTION_LINE + [LF] + [LF] == HOST_LINE + [LF] + last;
    NoLineBreakInHeaderLines();
    LinesOfLf(HOST_LINE, last);
    LinesOfLf(CONNECTION_LINE, [LF]);
    LinesOfLf([], []);
    assert [] + [LF] + [] == [LF];
  }

  lemma NoLineBreakInRequestLine(name: seq<byte>)
    requires NoLineBreak(name)
    ensures NoLineBreak(RequestLine(name))
  {
    AsciiNoLineBreak("GET /resolve?name=");
    AsciiNoLineBreak("&encoding=raw HTTP/1.1");
  }

  lemma NoLineBreakInHeaderLines()
    ensures NoLineBreak(HOST_LINE) && NoLineBreak(CONNECTION_LINE)
  {
    AsciiNoLineBreak("Host: dns.google.com");
    AsciiNoLineBreak("Connection: close");
  }

  /** The header loop of readBinaryDnsHttpResponse, with `line` the line in
      hand, `s` what follows it on the stream and `contentLength` the value
      so far: each non-empty line holding "Content-Length: " sets the length
      to Integer.parseInt of what follows its sixteenth character (which
      throws NumberFormatException, not caught), until end of stream or an
      empty line. Gives the final length and what is left of the stream. */
  function HeaderLoop(line: Option<seq<byte>>, s: seq<byte>, contentLength: int): (r: Result<(int, seq<byte>)>)
    ensures !r.Null?
    ensures r.Value? ==> |r.value.1| <= |s| && r.value.1 == s[|s| - |r.value.1|..]
    decreases |s|, if line.Some? then 1 else 0
  {
    if line.None? || line.value == [] then Value((contentLength, s))
    else
      var parsed :=
        if Contains(line.value, HTTP_HEADER_CONTENT_LENGTH)
        then ParseInt(line.value[|HTTP_HEADER_CONTENT_LENGTH|..])
        else Some(contentLength);
      if parsed.None? then Throws(NumberFormat)
      else
        var next := ReadLineOf(s);
        HeaderLoop(next.0, s[next.1..], parsed.value)
  }

  /** What readBinaryDnsHttpResponse makes of the outcome of its header
      loop: null when no positive length was found, null when the stream
      ends before that many octets (EOFException, caught); a negative length
      throws NegativeArraySizeException and a malformed one
      NumberFormatException, neither caught. */
  function BodyOf(headers: Result<(int, seq<byte>)>): (r: Result<seq<byte>>)
    ensures headers.Throws? ==> r == Throws(headers.exception)
    ensures r.Value? ==> headers.Value? && 0 < |r.value| <= |headers.value.1|
    ensures r.Value? ==> |r.value| == headers.value.0 && r.value == headers.value.1[..headers.value.0]
  {
    match headers
    case Throws(e) => Throws(e)
    case Null => Null
    case Value(v) =>
      var contentLength := v.0;
      var body := v.1;
      if contentLength == 0 then Null
      else if contentLength < 0 then Throws(NegativeArraySize)
      else if |body| < contentLength then Null
      else Value(body[..contentLength])
  }

  /** readBinaryDnsHttpResponse on a stream holding `s`: null unless the
      status line holds "200 OK"; otherwise what the headers announce. */
  function ReadResponse(s: seq<byte>): (r: Result<seq<byte>>)
    ensures r.Value? ==> ReadLineOf(s).0.Some? && Contains(ReadLineOf(s).0.value, HTTP_HEADER_RESPONSE_CODE_OK)
    ensures r.Value? ==> 0 < |r.value| <= |s|
  {
    var status := ReadLineOf(s);
    if status.0.None? || !Contains(status.0.value, HTTP_HEADER_RESPONSE_CODE_OK) then Null
    else BodyOf(HeaderLoop(status.0, s[status.1..], 0))
  }

  /** readBinaryDnsHttpResponse over a DataInputStream on the socket. */
  method ReadBinaryDnsHttpResponse(input: InStream) returns (r: Result<seq<byte>>)
    requires input.Valid()
    modifies input
    ensures input.Valid()
    ensures r == ReadResponse(old(input.Remaining()))
  {
    var line := input.ReadLine();
    if line.None? || !Contains(line.value, HTTP_HEADER_RESPONSE_CODE_OK) {
      return Null;
    }
    var headers := ReadHeaders(input, line);
    if headers.Throws? {
      return Throws(headers.exception);
    }
    r := ReadBody(input, headers.value);
  }

  /** The header loop of readBinaryDnsHttpResponse, starting from the status
      line in hand: gives the final Content-Length, and leaves the stream
      after the empty line. */
  method ReadHeaders(input: InStream, line: Option<seq<byte>>) returns (r: Result<int>)
    requires input.Valid()
    modifies input
    ensures input.Valid()
    ensures var h := HeaderLoop(line, old(input.Remaining()), 0);
      && (h.Throws? ==> r == Throws(h.exception))
      && (h.Value? ==> r == Value(h.value.0) && input.Remaining() == h.value.1)
  {
    ghost var headers := HeaderLoop(line, input.Remaining(), 0);
    var contentLength := 0;
    var current := line;
    while current.Some? && current.value != []
      invariant input.Valid()
      invariant HeaderLoop(current, input.Remaining(), contentLength) == headers
      decreases |input.Remaining()|, if current.Some? then 1 else 0
    {
      if Contains(current.value, HTTP_HEADER_CONTENT_LENGTH) {
        var parsed := ParseInt(current.value[|HTTP_HEADER_CONTENT_LENGTH|..]);
        if parsed.None? {
          return Throws(NumberFormat);
        }
        contentLength := parsed.value;
      }
      current := input.ReadLine();
    }
    return Value(contentLength);
  }

  /** The end of readBinaryDnsHttpResponse, once the headers announced
      contentLength octets. */
  method ReadBody(input: InStream, contentLength: int) returns (r: Result<seq<byte>>)
    requires input.Valid()
    modifies input
    ensures input.Valid()
    ensures r == BodyOf(Value((contentLength, old(input.Remaining()))))
  {
    if contentLength == 0 {
      return Null;
    }
    if contentLength < 0 {
      return Throws(NegativeArraySize);
    }
    ghost var body := input.Remaining();
    var dnsResponse := new byte[contentLength];
    var ok := input.ReadFully(dnsResponse);
    if !ok {
      return Null;
    }
    assert Used(body, contentLength) == contentLength;
    assert dnsResponse[..] == dnsResponse[..contentLength] == body[..contentLength];
    return Value(dnsResponse[..]);
  }

  function ContentLengthLine(n: nat): seq<byte>
  {
    HTTP_HEADER_CONTENT_LENGTH + Decimal(n)
  }

  lemma ContentLengthLineFacts(n: nat)
    requires n <= INT_MAX
    ensures NoLineBreak(ContentLengthLine(n)) && ContentLengthLine(n) != []
    ensures Contains(ContentLengthLine(n), HTTP_HEADER_CONTENT_LENGTH)
    ensures ParseInt(ContentLengthLine(n)[|HTTP_HEADER_CONTENT_LENGTH|..]) == Some(n)
  {
    var l := ContentLengthLine(n);
    var digits := Decimal(n);
    assert forall i | 0 <= i < |digits| :: IsDigit(digits[i]);
    assert NoLineBreak(HTTP_HEADER_CONTENT_LENGTH);
    assert l[..|HTTP_HEADER_CONTENT_LENGTH|] == HTTP_HEADER_CONTENT_LENGTH;
    ContainsAt(l, HTTP_HEADER_CONTENT_LENGTH, 0);
    assert l[|HTTP_HEADER_CONTENT_LENGTH|..] == digits;
    ParseIntOfDecimal(n);
  }

  /** The empty line ends the headers; what follows is the body. */
  lemma HeadersEnd(contentLength: int, body: seq<byte>)
    ensures HeaderLoop(Some([]), body, contentLength) == Value((contentLength, body))
    ensures ReadLineOf(CRLF + body) == (Some([]), 2) && (CRLF + body)[2..] == body
  {
    ReadLineOfCrLf([], body);
    assert [] + CRLF + body == CRLF + body;
  }

  /** One pass of the header loop over a non-empty line that sets the
      length to `contentLength'`, followed by the line `next`. */
  lemma HeaderLoopStep(line: seq<byte>, contentLength: int, contentLength': int, next: seq<byte>, rest: seq<byte>)
    requires line != [] && NoLineBreak(next)
    requires Contains(line, HTTP_HEADER_CONTENT_LENGTH) ==>
      ParseInt(line[|HTTP_HEADER_CONTENT_LENGTH|..]) == Some(contentLength')
    requires !Contains(line, HTTP_HEADER_CONTENT_LENGTH) ==> contentLength' == contentLength
    ensures HeaderLoop(Some(line), next + CRLF + rest, contentLength) == HeaderLoop(Some(next), rest, contentLength')
  {
    ReadLineOfCrLf(next, rest);
  }

  /** A status line holding "200 OK" and no "Content-Length: " starts the
      header loop with the length at 0. */
  lemma StatusThenHeaders(status: seq<byte>, next: seq<byte>, rest: seq<byte>)
    requires NoLineBreak(status) && Contains(status, HTTP_HEADER_RESPONSE_CODE_OK)
    requires !Contains(status, HTTP_HEADER_CONTENT_LENGTH)
    requires NoLineBreak(next)
    ensures ReadResponse(status + CRLF + (next + CRLF + rest)) == BodyOf(HeaderLoop(Some(next), rest, 0))
  {
    ReadLineOfCrLf(status, next + CRLF + rest);
    assert status != [] by {
      assert Contains(status, HTTP_HEADER_RESPONSE_CODE_OK);
    }
    HeaderLoopStep(status, 0, 0, next, rest);
  }

  /** A response whose status line holds "200 OK" and whose one
      Content-Length header announces n > 0 octets gives exactly the n
      octets after the empty line. */
  lemma ResponseWithContentLength(status: seq<byte>, n: nat, body: seq<byte>)
    requires NoLineBreak(status) && Contains(status, HTTP_HEADER_RESPONSE_CODE_OK)
    requires !Contains(status, HTTP_HEADER_CONTENT_LENGTH)
    requires 0 < n <= INT_MAX && |body| >= n
    ensures ReadResponse(status + CRLF + ContentLengthLine(n) + CRLF + CRLF + body) == Value(body[..n])
  {
    var cl := ContentLengthLine(n);
    ContentLengthLineFacts(n);
    assert status + CRLF + cl + CRLF + CRLF + body == status + CRLF + (cl + CRLF + ([] + CRLF + body));
    StatusThenHeaders(status, cl, [] + CRLF + body);
    HeaderLoopStep(cl, 0, n, [], body);
    HeadersEnd(n, body);
  }

  /** When the headers repeat Content-Length, the last one counts. */
  lemma LastContentLengthWins(status: seq<byte>, n1: nat, n2: nat, body: seq<byte>)
    requires NoLineBreak(status) && Contains(status, HTTP_HEADER_RESPONSE_CODE_OK)
    requires !Contains(status, HTTP_HEADER_CONTENT_LENGTH)
    requires n1 <= INT_MAX && 0 < n2 <= INT_MAX && |body| >= n2
    ensures ReadResponse(status + CRLF + ContentLengthLine(n1) + CRLF + ContentLengthLine(n2) + CRLF + CRLF + body)
      == Value(body[..n2])
  {
    var c1 := ContentLengthLine(n1);
    var c2 := ContentLengthLine(n2);
    var t2 := c2 + CRLF + ([] + CRLF + body);
    ContentLengthLineFacts(n1);
    ContentLengthLineFacts(n2);
    Regroup(status, CRLF, c1, c2, body);
    StatusThenHeaders(status, c1, t2);
    HeaderLoopStep(c1, 0, n1, c2, [] + CRLF + body);
    HeaderLoopStep(c2, n1, n2, [], body);
    HeadersEnd(n2, body);
  }

  lemma Regroup(status: seq<byte>, crlf: seq<byte>, c1: seq<byte>, c2: seq<byte>, body: seq<byte>)
    ensures status + crlf + c1 + crlf + c2 + crlf + crlf + body
      == status + crlf + (c1 + crlf + (c2 + crlf + ([] + crlf + body)))
  {
  }

  /** Without a Content-Length header the length stays 0 and the reader
      gives null, whatever follows. */
  lemma ResponseWithoutContentLength(status: seq<byte>, body: seq<byte>)
    requires NoLineBreak(status) && Contains(status, HTTP_HEADER_RESPONSE_CODE_OK)
    requires !Contains(status, HTTP_HEADER_CONTENT_LENGTH)
    ensures ReadResponse(status + CRLF + CRLF + body) == Null
  {
    assert status + CRLF + CRLF + body == status + CRLF + ([] + CRLF + body);
    StatusThenHeaders(status, [], body);
    HeadersEnd(0, body);
  }

  // ---------------------------------------------------------------------
  // The length the headers announce, stated on its own terms
  // ---------------------------------------------------------------------

  /** A header line announcing the body length. */
  predicate Announces(line: seq<byte>)
  {
    Contains(line, HTTP_HEADER_CONTENT_LENGTH)
  }

  /** The length a list of header lines announces, read from the last line
      backwards: the number after the sixteenth character of the last line
      holding "Content-Length: ", `contentLength` when no line holds it, and
      NumberFormatException as soon as any such line holds no number there. */
  function AnnouncedLength(lines: seq<seq<byte>>, contentLength: int): (r: Result<int>)
    ensures !r.Null?
    ensures r.Throws? ==> r.exception == NumberFormat
    decreases |lines|
  {
    if lines == [] then Value(contentLength)
    else
      var earlier := AnnouncedLength(lines[..|lines| - 1], contentLength);
      var last := lines[|lines| - 1];
      if earlier.Throws? || !Announces(last) then earlier
      else
        var n := ParseInt(last[|HTTP_HEADER_CONTENT_LENGTH|..]);
        if n.None? then Throws(NumberFormat) else Value(n.value)
  }

  /** The last line holding "Content-Length: " decides the length. */
  lemma {:induction false} LastAnnouncementDecides(lines: seq<seq<byte>>, contentLength: int, i: nat)
    requires i < |lines| && Announces(lines[i])
    requires forall j | i < j < |lines| :: !Announces(lines[j])
    requires AnnouncedLength(lines, contentLength).Value?
    ensures ParseInt(lines[i][|HTTP_HEADER_CONTENT_LENGTH|..]) == Some(AnnouncedLength(lines, contentLength).value)
    decreases |lines|
  {
    if i < |lines| - 1 {
      var front := lines[..|lines| - 1];
      assert front[i] == lines[i];
      assert forall j | i < j < |front| :: front[j] == lines[j];
      LastAnnouncementDecides(front, contentLength, i);
    }
  }

  /** Without a line holding "Content-Length: " the length stays as it was. */
  lemma {:induction false} NoAnnouncementKeeps(lines: seq<seq<byte>>, contentLength: int)
    requires forall j | 0 <= j < |lines| :: !Announces(lines[j])
    ensures AnnouncedLength(lines, contentLength) == Value(contentLength)
    decreases |lines|
  {
    if lines != [] {
      var front := lines[..|lines| - 1];
      assert forall j | 0 <= j < |front| :: front[j] == lines[j];
      NoAnnouncementKeeps(front, contentLength);
    }
  }

  /** One announcing line without a number makes the headers throw, wherever
      it stands. */
  lemma {:induction false} BadAnnouncementThrows(lines: seq<seq<byte>>, contentLength: int, i: nat)
    requires i < |lines| && Announces(lines[i])
    requires ParseInt(lines[i][|HTTP_HEADER_CONTENT_LENGTH|..]).None?
    ensures AnnouncedLength(lines, contentLength) == Throws(NumberFormat)
    decreases |lines|
  {
    if i < |lines| - 1 {
      var front := lines[..|lines| - 1];
      assert front[i] == lines[i];
      BadAnnouncementThrows(front, contentLength, i);
    }
  }

  /** When every announcing line holds a number, the headers do not throw. */
  lemma {:induction false} GoodAnnouncementsGiveValue(lines: seq<seq<byte>>, contentLength: int)
    requires forall j | 0 <= j < |lines| && Announces(lines[j]) ::
      ParseInt(lines[j][|HTTP_HEADER_CONTENT_LENGTH|..]).Some?
    ensures AnnouncedLength(lines, contentLength).Value?
    decreases |lines|
  {
    if lines != [] {
      var front := lines[..|lines| - 1];
      assert forall j | 0 <= j < |front| :: front[j] == lines[j];
      GoodAnnouncementsGiveValue(front, contentLength);
    }
  }

  /** AnnouncedLength read from the first line on, as the loop reads. */
  lemma {:induction false} AnnouncedLengthFirst(line: seq<byte>, lines: seq<seq<byte>>, contentLength: int)
    ensures AnnouncedLength([line] + lines, contentLength) ==
      if !Announces(line) then AnnouncedLength(lines, contentLength)
      else
        var n := ParseInt(line[|HTTP_HEADER_CONTENT_LENGTH|..]);
        if n.None? then Throws(NumberFormat) else AnnouncedLength(lines, n.value)
    decreases |lines|
  {
    var all := [line] + lines;
    if lines == [] {
      assert all[..0] == [] && all[0] == line;
    } else {
      var front := lines[..|lines| - 1];
      assert all[..|all| - 1] == [line] + front;
      assert all[|all| - 1] == lines[|lines| - 1];
      AnnouncedLengthFirst(line, front, contentLength);
      var earlier := AnnouncedLength([line] + front, contentLength);
      assert AnnouncedLength(all, contentLength) ==
        if earlier.Throws? || !Announces(lines[|lines| - 1]) then earlier
        else
          var n := ParseInt(lines[|lines| - 1][|HTTP_HEADER_CONTENT_LENGTH|..]);
          if n.None? then Throws(NumberFormat) else Value(n.value);
    }
  }

  /** Lines, each followed by CR LF. */
  function HeaderText(lines: seq<seq<byte>>): seq<byte>
  {
    if lines == [] then [] else lines[0] + CRLF + HeaderText(lines[1..])
  }

  /** The announced length together with what follows the empty line. */
  function WithBody(length: Result<int>, body: seq<byte>): Result<(int, seq<byte>)>
  {
    match length
    case Value(n) => Value((n, body))
    case Null => Null
    case Throws(e) => Throws(e)
  }

  lemma RegroupLines(line: seq<byte>, crlf: seq<byte>, text: seq<byte>, body: seq<byte>)
    ensures line + crlf + text + crlf + body == line + crlf + (text + crlf + body)
  {
  }

  /** The header loop over non-empty lines ends at the empty line with the
      length AnnouncedLength gives for the line in hand and the lines after
      it, and leaves the stream at what follows the empty line. */
  lemma {:induction false} HeaderLoopOverLines(line: seq<byte>, lines: seq<seq<byte>>, contentLength: int, body: seq<byte>)
    requires line != []
    requires forall i | 0 <= i < |lines| :: lines[i] != [] && NoLineBreak(lines[i])
    ensures HeaderLoop(Some(line), HeaderText(lines) + CRLF + body, contentLength)
      == WithBody(AnnouncedLength([line] + lines, contentLength), body)
    decreases |lines|
  {
    AnnouncedLengthFirst(line, lines, contentLength);
    var parsed :=
      if Announces(line) then ParseInt(line[|HTTP_HEADER_CONTENT_LENGTH|..]) else Some(contentLength);
    if parsed.None? {
    } else if lines == [] {
      assert HeaderText(lines) + CRLF + body == [] + CRLF + body;
      HeaderLoopStep(line, contentLength, parsed.value, [], body);
      HeadersEnd(parsed.value, body);
    } else {
      var rest := HeaderText(lines[1..]) + CRLF + body;
      RegroupLines(lines[0], CRLF, HeaderText(lines[1..]), body);
      HeaderLoopStep(line, contentLength, parsed.value, lines[0], rest);
      HeaderLoopOverLines(lines[0], lines[1..], parsed.value, body);
      assert [lines[0]] + lines[1..] == lines;
    }
  }

  /** readBinaryDnsHttpResponse on any response whose status line holds
      "200 OK": the length is what the lines from the status line on
      announce, and the body is read from right after the empty line. */
  lemma ResponseOfHeaders(status: seq<byte>, lines: seq<seq<byte>>, body: seq<byte>)
    requires NoLineBreak(status) && Contains(status, HTTP_HEADER_RESPONSE_CODE_OK)
    requires forall i | 0 <= i < |lines| :: lines[i] != [] && NoLineBreak(lines[i])
    ensures ReadResponse(status + CRLF + HeaderText(lines) + CRLF + body)
      == BodyOf(WithBody(AnnouncedLength([status] + lines, 0), body))
  {
    var rest := HeaderText(lines) + CRLF + body;
    RegroupLines(status, CRLF, HeaderText(lines), body);
    ReadLineOfCrLf(status, rest);
    assert status != [] by {
      assert Contains(status, HTTP_HEADER_RESPONSE_CODE_OK);
    }
    HeaderLoopOverLines(status, lines, 0, body);
  }

  /** Whatever other headers there are, a "200 OK" response whose last
      "Content-Length: " line announces n gives null for 0, throws for a
      negative n, gives null when fewer than n octets follow the empty line,
      and otherwise exactly the first n of them. */
  lemma LastAnnouncedBody(status: seq<byte>, lines: seq<seq<byte>>, body: seq<byte>, i: nat)
    requires NoLineBreak(status) && Contains(status, HTTP_HEADER_RESPONSE_CODE_OK) && !Announces(status)
    requires forall j | 0 <= j < |lines| :: lines[j] != [] && NoLineBreak(lines[j])
    requires forall j | 0 <= j < |lines| && Announces(lines[j]) ::
      ParseInt(lines[j][|HTTP_HEADER_CONTENT_LENGTH|..]).Some?
    requires i < |lines| && Announces(lines[i])
    requires forall j | i < j < |lines| :: !Announces(lines[j])
    ensures var n := ParseInt(lines[i][|HTTP_HEADER_CONTENT_LENGTH|..]).value;
      ReadResponse(status + CRLF + HeaderText(lines) + CRLF + body)
        == if n == 0 then Null
           else if n < 0 then Throws(NegativeArraySize)
           else if |body| < n then Null
           else Value(body[..n])
  {
    AnnouncedLengthFirst(status, lines, 0);
    GoodAnnouncementsGiveValue(lines, 0);
    LastAnnouncementDecides(lines, 0, i);
    ResponseOfHeaders(status, lines, body);
  }
}
