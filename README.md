# cordova-plugin-tun2socks: DNS, SOCKS and network-selection core in Dafny

This project models the parts of the tun2socks Cordova plugin where its
protocol rules live, and proves properties of that model:

- **The DNS resolvers.**
  - `DnsUdpToSocksResolver` receives UDP DNS queries and checks the DNS
    header. It frames each query for DNS over TCP and relays it through a
    SOCKS proxy.
  - `DnsResolverService` sends the query name as an HTTP GET and reads the
    binary answer back. It then writes the query's ID into the answer.
  - The badvpn C helpers in `dns_proto.h` check, encode and decode DNS
    headers and names.
- **The SOCKS-to-HTTPS bridge.**
  - `SocksBinder` runs the SOCKS 5 server side: the authentication
    handshake, the CONNECT request and the download relay.
  - `BasicHttpSocksForwarder` sends an HTTP CONNECT request with optional
    Basic credentials. It scans the proxy's answer for the empty line and
    relays the upload.
- **Android glue.**
  - `NetworkManager` picks the non-VPN network the process binds to.
  - `TunnelState` is the singleton that records the tunnel manager and the
    "starting" flag.

Every byte buffer is a sequence of octets (`byte` = 0..255), and text is its
ASCII bytes. A Java method that returns a reference gives a `Result`: a
value, `null`, or the unchecked exception that escapes from it. Streams and
sockets are small classes:
- An input stream holds its data, a read position and the most one bulk read
  returns. This makes the partial-read loops really loop.
- An output stream records what was written and whether it is closed.

Each Java or C function that updates state step by step is a Dafny method
with loop invariants. It is proved against a function of its input, and the
properties are proved as lemmas about that function.

Files and modules:

| file | module | models |
|---|---|---|
| java_lang.dfy | JavaLang | octets, Java short/byte views, `Integer.parseInt`/`toString`, `String.indexOf`/`contains` |
| streams.dfy | Streams | `InputStream`/`DataInputStream` reads, `OutputStream`, `Socket` |
| relay.dfy | Relay | the 16 KiB copy loop used by both relay threads |
| dns_header.dfy | DnsHeader | the Java DNS header check shared by both resolvers |
| dns_proto.dfy | DnsProto | `dns_proto.h` |
| dns_udp_to_socks.dfy | DnsUdpToSocks | `DnsUdpToSocksResolver.java` |
| dns_resolver_service.dfy | DnsResolverService | `DnsResolverService.java` |
| socks_binder.dfy | SocksBinder | `SocksBinder.java` |
| http_forwarder.dfy | HttpForwarder | `BasicHttpSocksForwarder.java` |
| network_manager.dfy | NetworkManager | `NetworkManager.java` |
| tunnel_state.dfy | TunnelState | `TunnelState.java`, and `isServiceRunning` of `Tun2Socks.java` |

Behaviour of the code as written that the proofs make explicit:
- The Java resolvers read QDCOUNT as a signed short, while `dns_check` reads
  it unsigned. A query announcing 0x8000 questions or more therefore passes
  the C check and fails the Java one. See `DnsProto.QdcountSignDisagreement`.
- `parseDnsRequestName` reads a label length as a signed Java byte. A first
  label of 128 octets or more therefore ends the name at once, and the name
  reads as empty. See `DnsResolverService.LongLabelReadsAsRoot`.
- `readStreamPayload` reads the DNS-over-TCP length as a signed short. A
  reply of 32768 octets or more therefore raises NegativeArraySizeException.
  See `DnsUdpToSocks.LongFrameFails`.
- `dns_encode_name` writes no length octet for the last label of a name that
  ends in a dot, and none for the empty name. That octet keeps what the
  buffer held before. See `DnsProto.TrailingDotLeavesHole`.
- `dns_set_rcode` ORs a nonzero code into RCODE without clearing the old one.
  See `DnsProto.RcodeAccumulates`.
- The forwarder never looks at the proxy's status line, so a 407 answer
  still opens the tunnel. At end of stream its scan loop keeps appending
  U+FFFD and never ends. See `HttpForwarder.EndOfStreamNeverTerminates`.
- `getSocksServerAddress` cuts the stored text at its first colon, so an
  IPv6 literal cannot be stored. See
  `DnsResolverService.SocksServerAddressIPv6`.

## Model

| member | source | states |
|---|---|---|
| JavaLang.ParseInt | src/android/org/uproxy/tun2socks/DnsResolverService.java:90 | `Integer.parseInt` in radix 10 gives only values within the 32-bit int range, or fails (NumberFormatException) |
| JavaLang.ParseIntOfDecimal | src/android/org/uproxy/tun2socks/DnsResolverService.java:271-272 | `parseInt` reads back the decimal text of every int from 0 to INT_MAX |
| JavaLang.DigitsValueOfDecimal | src/android/com/google/jigsaw/sockstohttps/BasicHttpSocksForwarder.java:85 | the decimal digits written for a port or a length have exactly that value |
| JavaLang.IndexOf | src/android/org/uproxy/tun2socks/DnsResolverService.java:88 | `indexOf(':')` is the first position holding the colon, or -1 when there is none |
| JavaLang.ContainsByte | src/android/com/google/jigsaw/sockstohttps/BasicHttpSocksForwarder.java:76 | `contains(":")` holds exactly when `indexOf(':')` finds the colon |
| JavaLang.ShortBytes | src/android/org/uproxy/tun2socks/DnsUdpToSocksResolver.java:220 | `writeShort` writes two octets, high first, that read back big-endian as the value |
| Streams.ReadLineOf | src/android/org/uproxy/tun2socks/DnsResolverService.java:262 | `readLine` is null exactly at end of stream; a line holds no CR or LF and consumes at least one octet |
| Streams.InStream.Read | src/android/com/google/jigsaw/sockstohttps/SocksBinder.java:21-31 | `read()` gives the next octet and consumes it, or -1 at end of stream and consumes nothing |
| Streams.InStream.ReadInto | src/android/com/google/jigsaw/sockstohttps/SocksBinder.java:79 | `read(buf, off, len)` stores 1..len next octets at `buf[off..]` and leaves the rest of `buf` alone, or gives -1 at end of stream |
| Streams.InStream.ReadBuffer | src/android/com/google/jigsaw/sockstohttps/SocksBinder.java:145 | `read(buf)` stores some next octets at the front of `buf`, or gives -1 at end of stream |
| Streams.InStream.ReadFully | src/android/org/uproxy/tun2socks/DnsResolverService.java:282 | `readFully` succeeds exactly when enough octets remain; what it stores is the stream's next octets and the stream moves past them |
| Streams.InStream.ReadShort | src/android/org/uproxy/tun2socks/DnsUdpToSocksResolver.java:235 | `readShort` succeeds exactly when two octets remain, giving them as a signed big-endian short |
| Streams.InStream.ReadLine | src/android/org/uproxy/tun2socks/DnsResolverService.java:274 | the loop over single reads returns the line `ReadLineOf` describes and consumes exactly its octets and line end |
| Streams.OutStream.Write | src/android/com/google/jigsaw/sockstohttps/SocksBinder.java:37 | a write appends the octets, or fails (IOException) and appends nothing once the stream is closed |
| Streams.Socket.Close | src/android/com/google/jigsaw/sockstohttps/SocksBinder.java:149 | closing the socket also closes its output and loses nothing written |
| Relay.Pump | src/android/com/google/jigsaw/sockstohttps/SocksBinder.java:143-147 | the copy loop writes everything left in the input, in order and unchanged, when the output is open; it writes nothing when a write fails |
| Relay.CopyUntilEnd | src/android/com/google/jigsaw/sockstohttps/SocksBinder.java:141-152 | the relay thread copies the whole input, then closes the output and the socket; a failed write closes nothing |
| DnsHeader.MaskQr | src/android/org/uproxy/tun2socks/DnsResolverService.java:309 | `octet & DNS_QR` is 0 exactly for an octet with QR clear (below 0x80) |
| DnsHeader.MaskZ | src/android/org/uproxy/tun2socks/DnsResolverService.java:310 | `octet & DNS_Z` is 0 exactly when bits 4 to 6 are clear |
| DnsHeader.GetShort | src/android/org/uproxy/tun2socks/DnsResolverService.java:304-306 | `getShort` gives a signed 16-bit value |
| DnsHeader.ValidateDnsRequest | src/android/org/uproxy/tun2socks/DnsResolverService.java:297-314 | the request check on the first `length` octets of a buffer; an accepted request is at least a header long and has QR clear. Its full meaning is stated by ValidateOnBufferIsOnCopy and ValidDnsRequestMeaning |
| DnsHeader.IsValidDnsRequest | src/android/org/uproxy/tun2socks/DnsUdpToSocksResolver.java:197-214 | the same check on a whole packet; an accepted packet is at least a header long. ValidDnsRequestMeaning states exactly which packets it accepts |
| DnsHeader.ValidDnsRequestMeaning | src/android/org/uproxy/tun2socks/DnsUdpToSocksResolver.java:197-214 | `isValidDnsRequest` accepts exactly: at least 12 octets, QR clear, Z clear, QDCOUNT 1..0x7FFF, ANCOUNT and NSCOUNT zero |
| DnsHeader.ValidateOnBufferIsOnCopy | src/android/org/uproxy/tun2socks/DnsResolverService.java:297-314 | `validateDnsRequest` on the shared receive buffer with the received length decides as the check on a copy of the received octets does |
| DnsProto.DnsCheck | src/badvpn/misc/dns_proto.h:83-99 | too short a message is refused and the header is left alone; otherwise the header is copied out and tested |
| DnsProto.NativeAndJavaChecks | src/badvpn/misc/dns_proto.h:95-98 | everything the Java check accepts `dns_check` accepts; the converse holds when QDCOUNT is below 0x8000 |
| DnsProto.QdcountSignDisagreement | src/badvpn/misc/dns_proto.h:97 | a query announcing 0x8000 questions passes `dns_check` and fails the Java check |
| DnsProto.DnsGetQr | src/badvpn/misc/dns_proto.h:125-128 | `dns_get_qr` is 1 exactly when the QR bit is set, and 0 otherwise |
| DnsProto.DnsSetQr | src/badvpn/misc/dns_proto.h:120-123 | `dns_set_qr` sets QR, keeps the other seven bits of that octet and changes no other octet |
| DnsProto.WithQrIdempotent | src/badvpn/misc/dns_proto.h:122 | setting QR twice is setting it once, and Opcode, AA, TC and RD survive |
| DnsProto.DnsGetRcode | src/badvpn/misc/dns_proto.h:142-145 | `dns_get_rcode` is the low four bits of the fourth octet |
| DnsProto.BitOrWidth | src/badvpn/misc/dns_proto.h:138 | OR-ing two 4-bit values stays within 4 bits |
| DnsProto.BitOrBits | src/badvpn/misc/dns_proto.h:138 | the OR used by `dns_set_rcode` sets a bit exactly when either operand has it set |
| DnsProto.RcodeAfterSet | src/badvpn/misc/dns_proto.h:130-140 | codes above 5 change nothing; 0 clears RCODE; a code 1..5 over a clear RCODE reads back; RA and Z are never touched |
| DnsProto.RcodeKeepsBits | src/badvpn/misc/dns_proto.h:136-139 | a code 1..5 is OR-ed in without clearing: each RCODE bit afterwards is set exactly when it was set before or in the code |
| DnsProto.DnsSetRcode | src/badvpn/misc/dns_proto.h:130-140 | `dns_set_rcode` changes only the fourth octet, as `RcodeAfterSet` describes |
| DnsProto.RcodeAccumulates | src/badvpn/misc/dns_proto.h:138 | code 1 and then code 2 leave RCODE 3: a nonzero code is not replaced |
| DnsProto.DnsEncodeCompressedName | src/badvpn/misc/dns_proto.h:147-149 | the pointer has the top two bits set and the offset in the low fourteen |
| DnsProto.RunLengthUpTo | src/badvpn/misc/dns_proto.h:157-168 | the count `n` of a label is the number of octets up to the next dot or the end |
| DnsProto.JoinSplit | src/badvpn/misc/dns_proto.h:158-164 | splitting a name at its dots and joining the labels with dots gives the name back |
| DnsProto.EncodeLabelThenRest | src/badvpn/misc/dns_proto.h:158-166 | a label then a dot encodes as its length octet and octets, followed by the encoding of the rest |
| DnsProto.EncodeLastLabel | src/badvpn/misc/dns_proto.h:169-172 | the last label gets its length octet only when nonzero, then the closing zero |
| DnsProto.EncodeWellFormed | src/badvpn/misc/dns_proto.h:151-173 | a name whose labels are 1..255 octets encodes to length-prefixed labels closed by the root label (RFC 1035 section 3.1), whatever the buffer held |
| DnsProto.TrailingDotLeavesHole | src/badvpn/misc/dns_proto.h:169-171 | for the empty name, or one ending in a dot, the last length octet is left as the buffer held it |
| DnsProto.DecodeLabelEncoding | src/badvpn/misc/dns_proto.h:101-117 | `dns_get_name` on length-prefixed labels gives the labels joined by dots, wherever in the buffer they sit |
| DnsProto.NameRoundTrip | src/badvpn/misc/dns_proto.h:101-117 | `dns_get_name` reads back every well-formed name `dns_encode_name` wrote |
| DnsProto.DnsEncodeName | src/badvpn/misc/dns_proto.h:153-173 | the loop writes exactly the encoding `EncodedName` describes into the first length+2 octets and nothing beyond |
| DnsProto.DnsGetName | src/badvpn/misc/dns_proto.h:101-117 | the loop copies the decoded dotted text and a closing NUL into `name` and writes nothing beyond |
| DnsUdpToSocks.Frame | src/android/org/uproxy/tun2socks/DnsUdpToSocksResolver.java:220-221 | a frame is the message's length in two big-endian octets, then the message |
| DnsUdpToSocks.WriteUdpPacketToStream | src/android/org/uproxy/tun2socks/DnsUdpToSocksResolver.java:217-228 | on an open stream the frame is written and the result is true; on a closed one nothing is written and the result is false |
| DnsUdpToSocks.PayloadOf | src/android/org/uproxy/tun2socks/DnsUdpToSocksResolver.java:231-244 | null with fewer than two octets; NegativeArraySize for a length of 0x8000 or more; otherwise a buffer of the announced length holding the next octets, zero-padded when the stream ends early |
| DnsUdpToSocks.ReadStreamPayload | src/android/org/uproxy/tun2socks/DnsUdpToSocksResolver.java:231-244 | the method returns what `PayloadOf` describes and consumes what it reads |
| DnsUdpToSocks.FrameRoundTrip | src/android/org/uproxy/tun2socks/DnsUdpToSocksResolver.java:235-237 | a frame of a message shorter than 32768 octets reads back as that message, whatever follows |
| DnsUdpToSocks.LongFrameFails | src/android/org/uproxy/tun2socks/DnsUdpToSocksResolver.java:235-236 | a message of 32768 octets or more makes the reader throw NegativeArraySizeException |
| DnsUdpToSocks.Receive | src/android/org/uproxy/tun2socks/DnsUdpToSocksResolver.java:92 | `receive` stores the datagram's octets that fit the buffer, and the length is their count |
| DnsUdpToSocks.Datagrams | src/android/org/uproxy/tun2socks/DnsUdpToSocksResolver.java:91-98 | failed and timed-out receives yield no datagram |
| DnsUdpToSocks.CopyDatagram | src/android/org/uproxy/tun2socks/DnsUdpToSocksResolver.java:111-113 | each worker gets a fresh array holding exactly the received octets |
| DnsUdpToSocks.ReceiveLoop | src/android/org/uproxy/tun2socks/DnsUdpToSocksResolver.java:63-130 | one job per received datagram, in order, each with its own fresh buffer of the received octets and its sender; no jobs without a SOCKS server address |
| DnsUdpToSocks.WorkerRunOf | src/android/org/uproxy/tun2socks/DnsUdpToSocksResolver.java:160-195 | a worker answers only a valid query, after sending its frame, with the payload read back, to the query's sender, and closes the socket then |
| DnsUdpToSocks.WorkerRun | src/android/org/uproxy/tun2socks/DnsUdpToSocksResolver.java:160-195 | the worker writes, reads, answers and closes as `WorkerRunOf` describes |
| DnsUdpToSocks.WorkerRoundTrip | src/android/org/uproxy/tun2socks/DnsUdpToSocksResolver.java:179-194 | a valid query whose resolver answers with a framed reply gets that reply back at its sender |
| DnsResolverService.GetSocksServerAddress | src/android/org/uproxy/tun2socks/DnsResolverService.java:84-92 | null exactly when nothing was stored; StringIndexOutOfBounds without a colon; otherwise host before the first colon and the port parsed after it |
| DnsResolverService.SocksServerAddressRoundTrip | src/android/org/uproxy/tun2socks/DnsResolverService.java:88-91 | a stored "host:port" with a colon-free host reads back as that host and port |
| DnsResolverService.SocksServerAddressIPv6 | src/android/org/uproxy/tun2socks/DnsResolverService.java:88-90 | an IPv6 literal is cut at its first colon and the port text fails to parse |
| DnsResolverService.NameFrom | src/android/org/uproxy/tun2socks/DnsResolverService.java:323-336 | a name read off the buffer is shorter than what follows its start and ends with a dot unless empty |
| DnsResolverService.ParseDnsRequestName | src/android/org/uproxy/tun2socks/DnsResolverService.java:318-337 | the loop returns what `RequestName` describes |
| DnsResolverService.NameFromLabelEncoding | src/android/org/uproxy/tun2socks/DnsResolverService.java:323-336 | labels of 1..127 octets read back as each label followed by a dot |
| DnsResolverService.ParseEncodedName | src/android/org/uproxy/tun2socks/DnsResolverService.java:318-337 | a name encoded as `dns_encode_name` does, with labels of 1..127 octets, is parsed back as the name and a final dot |
| DnsResolverService.LongLabelReadsAsRoot | src/android/org/uproxy/tun2socks/DnsResolverService.java:323-324 | a first label of 128 octets or more reads as the empty name, its length being a negative byte |
| DnsResolverService.LabelLengthAgainstLimit | src/android/org/uproxy/tun2socks/DnsResolverService.java:325-329 | a length beyond the whole buffer gives null, but one beyond only what remains throws BufferUnderflowException |
| DnsResolverService.ParseDnsRequestId | src/android/org/uproxy/tun2socks/DnsResolverService.java:339-342 | the ID is the first two octets as a signed short, or BufferUnderflow for fewer than two octets |
| DnsResolverService.WriteRequestIdToDnsResponse | src/android/org/uproxy/tun2socks/DnsResolverService.java:291-295 | `putShort` replaces the first two octets, high first, and nothing else; a shorter response is left alone (BufferOverflow) |
| DnsResolverService.RequestIdRoundTrip | src/android/org/uproxy/tun2socks/DnsResolverService.java:192-201 | after the rewrite the response carries the query's ID and is otherwise unchanged; writing back its own ID changes nothing |
| DnsResolverService.PerformDnsHttpRequest | src/android/org/uproxy/tun2socks/DnsResolverService.java:246-254 | the request is written in full on an open stream, and nothing is written, with no error, on a closed one |
| DnsResolverService.DnsHttpRequest | src/android/org/uproxy/tun2socks/DnsResolverService.java:249-252 | the request text written for a name; it ends with two line feeds, so an empty line closes the headers. DnsHttpRequestLines states its lines |
| DnsResolverService.DnsHttpRequestLines | src/android/org/uproxy/tun2socks/DnsResolverService.java:249-252 | read line by line, the request is the GET line naming the query, the Host and Connection headers and an empty line |
| DnsResolverService.HeaderLoop | src/android/org/uproxy/tun2socks/DnsResolverService.java:269-275 | the header loop never yields null and leaves a suffix of the stream; `HeaderLoopOverLines` states the length it ends with |
| DnsResolverService.BodyOf | src/android/org/uproxy/tun2socks/DnsResolverService.java:276-283 | an exception from the headers passes through; a body is the first `contentLength` octets after the headers, and only when that many are there |
| DnsResolverService.AnnouncedLength | src/android/org/uproxy/tun2socks/DnsResolverService.java:269-273 | the only failure of the headers is NumberFormatException |
| DnsResolverService.LastAnnouncementDecides | src/android/org/uproxy/tun2socks/DnsResolverService.java:269-273 | the number on the last line holding "Content-Length: " is the announced length |
| DnsResolverService.NoAnnouncementKeeps | src/android/org/uproxy/tun2socks/DnsResolverService.java:268-273 | without such a line the length stays at its starting value |
| DnsResolverService.BadAnnouncementThrows | src/android/org/uproxy/tun2socks/DnsResolverService.java:270-272 | one such line without a number after it throws NumberFormatException, wherever it stands |
| DnsResolverService.GoodAnnouncementsGiveValue | src/android/org/uproxy/tun2socks/DnsResolverService.java:269-273 | when every such line holds a number, the headers give a length |
| DnsResolverService.AnnouncedLengthFirst | src/android/org/uproxy/tun2socks/DnsResolverService.java:269-274 | read from the first line on, each announcing line replaces the length, as the loop does |
| DnsResolverService.HeaderLoopOverLines | src/android/org/uproxy/tun2socks/DnsResolverService.java:269-275 | over any non-empty header lines the loop ends at the empty line with the announced length and leaves the stream after it |
| DnsResolverService.ResponseOfHeaders | src/android/org/uproxy/tun2socks/DnsResolverService.java:258-283 | a "200 OK" response with any header lines gives the body that the announced length selects |
| DnsResolverService.LastAnnouncedBody | src/android/org/uproxy/tun2socks/DnsResolverService.java:258-283 | whatever other headers there are, the last Content-Length n gives null for 0, throws for n < 0, null when fewer than n octets follow, else exactly those n octets |
| DnsResolverService.ReadResponse | src/android/org/uproxy/tun2socks/DnsResolverService.java:258-288 | a body is only returned when the status line holds "200 OK" |
| DnsResolverService.ReadBinaryDnsHttpResponse | src/android/org/uproxy/tun2socks/DnsResolverService.java:258-288 | the method returns what `ReadResponse` describes |
| DnsResolverService.ReadHeaders | src/android/org/uproxy/tun2socks/DnsResolverService.java:268-275 | the header loop ends as `HeaderLoop` describes, with the stream after the empty line |
| DnsResolverService.ReadBody | src/android/org/uproxy/tun2socks/DnsResolverService.java:276-283 | a zero length gives null; otherwise `readFully` of the announced length, as `BodyOf` describes |
| DnsResolverService.ResponseWithContentLength | src/android/org/uproxy/tun2socks/DnsResolverService.java:262-283 | a "200 OK" response with one Content-Length n > 0 gives exactly the n octets after the empty line |
| DnsResolverService.LastContentLengthWins | src/android/org/uproxy/tun2socks/DnsResolverService.java:270-273 | with two Content-Length headers the last one decides |
| DnsResolverService.ResponseWithoutContentLength | src/android/org/uproxy/tun2socks/DnsResolverService.java:276-279 | without Content-Length the reader gives null whatever follows |
| SocksBinder.GetByAddress | src/android/com/google/jigsaw/sockstohttps/SocksBinder.java:90 | four octets, or sixteen in IPv4-mapped form (ten zero octets, then 0xFF 0xFF), make an IPv4 address of four octets; any other sixteen make an IPv6 address of sixteen |
| SocksBinder.MappedFormIsSameAddress | src/android/com/google/jigsaw/sockstohttps/SocksBinder.java:90 | the IPv4-mapped sixteen octets of an IPv4 address give the same IPv4 address as its four octets, holding the last four |
| SocksBinder.ShiftOr | src/android/com/google/jigsaw/sockstohttps/SocksBinder.java:88 | `(hi << 8) \| lo` is a valid port exactly when neither read hit end of stream, and is then the big-endian value |
| SocksBinder.HandshakeOf | src/android/com/google/jigsaw/sockstohttps/SocksBinder.java:19-39 | the handshake accepts exactly 05 01 00, and stops reading at the first wrong octet |
| SocksBinder.DoAuthHandshake | src/android/com/google/jigsaw/sockstohttps/SocksBinder.java:19-39 | on success 05 00 is written and three octets are consumed; otherwise nothing is written |
| SocksBinder.ConnectRequestOf | src/android/com/google/jigsaw/sockstohttps/SocksBinder.java:41-98 | null unless version 5 and command CONNECT; a destination needs one of the three address types and comes from the octets after it |
| SocksBinder.AddressAndPortOf | src/android/com/google/jigsaw/sockstohttps/SocksBinder.java:74-95 | a destination takes `len` address octets and two port octets, resolved for IPv4/IPv6 and unresolved for a domain name |
| SocksBinder.ReadConnectRequest | src/android/com/google/jigsaw/sockstohttps/SocksBinder.java:41-98 | the method returns and consumes what `ConnectRequestOf` describes |
| SocksBinder.ReadAddressAndPort | src/android/com/google/jigsaw/sockstohttps/SocksBinder.java:74-95 | the method returns and consumes what `AddressAndPortOf` describes |
| SocksBinder.ReadRawAddress | src/android/com/google/jigsaw/sockstohttps/SocksBinder.java:76-85 | the partial-read loop fills the buffer with the next `len` octets, or gives up at end of stream having consumed everything |
| SocksBinder.ConnectRequestRoundTrip | src/android/com/google/jigsaw/sockstohttps/SocksBinder.java:41-98 | every well-formed request a client encodes parses back to its destination, consuming exactly its octets |
| SocksBinder.TruncatedConnectRequest | src/android/com/google/jigsaw/sockstohttps/SocksBinder.java:65-91 | a request cut short never yields a destination: null, NegativeArraySize or IllegalArgument, depending on where it was cut |
| SocksBinder.NegotiationOf | src/android/com/google/jigsaw/sockstohttps/SocksBinder.java:105-157 | both replies are written exactly when the tunnel is established, which needs the handshake, a parsed request and a successful connect |
| SocksBinder.Negotiate | src/android/com/google/jigsaw/sockstohttps/SocksBinder.java:105-136 | the method writes, consumes and ends as `NegotiationOf` describes |
| SocksBinder.RelayDownload | src/android/com/google/jigsaw/sockstohttps/SocksBinder.java:138-155 | every octet from upstream reaches the client, then its output and socket are closed |
| SocksBinder.LoopbackExchange | src/android/com/google/jigsaw/sockstohttps/SocksBinder.java:105-131 | a client asking for 127.0.0.1:80 gets 05 00 and the ten-octet success reply |
| HttpForwarder.HexDigit | src/android/com/google/jigsaw/sockstohttps/BasicHttpSocksForwarder.java:75 | a nibble is written as a lower-case hexadecimal digit |
| HttpForwarder.Hex | src/android/com/google/jigsaw/sockstohttps/BasicHttpSocksForwarder.java:75 | a group is written as one or more hexadecimal digits |
| HttpForwarder.DottedQuad | src/android/com/google/jigsaw/sockstohttps/BasicHttpSocksForwarder.java:75 | an IPv4 address is written with digits and dots only |
| HttpForwarder.Ipv6Text | src/android/com/google/jigsaw/sockstohttps/BasicHttpSocksForwarder.java:75-77 | the platform's IPv6 text always holds a colon, so the address is bracketed |
| HttpForwarder.ElidedRun | src/android/com/google/jigsaw/sockstohttps/BasicHttpSocksForwarder.java:75 | the groups written as "::" are a whole run of zero groups that no run exceeds and every earlier run falls short of; nothing is elided exactly when no two neighbouring groups are zero (section 4.2 of RFC 5952) |
| HttpForwarder.LoopbackText | src/android/com/google/jigsaw/sockstohttps/BasicHttpSocksForwarder.java:75 | the loopback address is written "::1" |
| HttpForwarder.RequestHost | src/android/com/google/jigsaw/sockstohttps/BasicHttpSocksForwarder.java:71-83 | the host text of the CONNECT line: the name of an unresolved destination, else the address text, bracketed when it holds a colon. HostBracketsIpv6 states that exactly IPv6 addresses are bracketed |
| HttpForwarder.RequestTarget | src/android/com/google/jigsaw/sockstohttps/BasicHttpSocksForwarder.java:85 | the CONNECT target starts with the host text, followed by a colon. TargetPortReadsBack states that the port reads back from after the last colon |
| HttpForwarder.HostBracketsIpv6 | src/android/com/google/jigsaw/sockstohttps/BasicHttpSocksForwarder.java:72-83 | a resolved address is bracketed exactly when it is IPv6, with its text inside the brackets |
| HttpForwarder.TargetPortReadsBack | src/android/com/google/jigsaw/sockstohttps/BasicHttpSocksForwarder.java:85 | the port is the text after the target's last colon and parses back to the port |
| HttpForwarder.ConnectHeaders | src/android/com/google/jigsaw/sockstohttps/BasicHttpSocksForwarder.java:88-96 | the request text the forwarder writes to the proxy. ConnectHeaderLines states its lines and ConnectHeadersEndOnce that the blank line ends it and only it |
| HttpForwarder.ConnectHeaderLines | src/android/com/google/jigsaw/sockstohttps/BasicHttpSocksForwarder.java:88-96 | read line by line, the request is the CONNECT line, a Proxy-Authorization line exactly when a username or password is set, and an empty line |
| HttpForwarder.HeaderEnd | src/android/com/google/jigsaw/sockstohttps/BasicHttpSocksForwarder.java:104-107 | the shortest prefix ending in CR LF CR LF, or none |
| HttpForwarder.AsciiChar | src/android/com/google/jigsaw/sockstohttps/BasicHttpSocksForwarder.java:106 | US-ASCII decoding maps CR and LF to themselves and no other octet to them |
| HttpForwarder.EndsWithBlankLine | src/android/com/google/jigsaw/sockstohttps/BasicHttpSocksForwarder.java:104-106 | the decoded text ends with CR LF CR LF exactly when its octets do |
| HttpForwarder.EndOfStreamNeverTerminates | src/android/com/google/jigsaw/sockstohttps/BasicHttpSocksForwarder.java:104-107 | after end of stream, the appended U+FFFD characters can never complete the terminator |
| HttpForwarder.AwaitResponse | src/android/com/google/jigsaw/sockstohttps/BasicHttpSocksForwarder.java:103-107 | the scan consumes exactly up to the first empty line, or the stream ends and the loop never returns |
| HttpForwarder.ConnectHeadersEndOnce | src/android/com/google/jigsaw/sockstohttps/BasicHttpSocksForwarder.java:88-96 | the request's first empty line is its last line |
| HttpForwarder.Connect | src/android/com/google/jigsaw/sockstohttps/BasicHttpSocksForwarder.java:88-133 | the request is written in full, then the proxy's answer is read up to its empty line, and the proxy's input is returned; a failed write gives null |
| HttpForwarder.RelayUpload | src/android/com/google/jigsaw/sockstohttps/BasicHttpSocksForwarder.java:110-126 | every octet from the SOCKS client reaches the proxy, then the proxy's output and socket are closed |
| NetworkManager.IsConnectedNonVpnNetwork | src/android/org/uproxy/tun2socks/NetworkManager.java:145-152 | a network qualifies only when it has info and that info is not of the VPN type; it must also be connected or connecting and available. SelectNeverVpn states that a chosen network qualifies |
| NetworkManager.Candidates | src/android/org/uproxy/tun2socks/NetworkManager.java:119-128 | the table of candidate networks by type; it never holds the VPN type. CandidatesMeaning states exactly which types it holds and which network each maps to |
| NetworkManager.CandidatesMeaning | src/android/org/uproxy/tun2socks/NetworkManager.java:119-128 | the walk fails exactly when a listed network has no info; the table has exactly the types of qualifying networks, each mapped to the last such network |
| NetworkManager.CandidatesFailureSticks | src/android/org/uproxy/tun2socks/NetworkManager.java:120-122 | a network without info anywhere in the list makes the whole walk throw |
| NetworkManager.NetworkManager.SelectConnectedNonVpnNetwork | src/android/org/uproxy/tun2socks/NetworkManager.java:107-141 | the loop over all networks returns what `SelectOf` describes |
| NetworkManager.SelectNeverVpn | src/android/org/uproxy/tun2socks/NetworkManager.java:145-152 | a chosen network is connected, available and not a VPN, and is the active network or a listed one |
| NetworkManager.PickByPriority | src/android/org/uproxy/tun2socks/NetworkManager.java:131-140 | picks a network from the candidate table, and only one that is in it; it picks none only when the table holds no Ethernet, Wi-Fi, WiMAX or mobile type. SelectByPriority states the order of preference |
| NetworkManager.SelectByPriority | src/android/org/uproxy/tun2socks/NetworkManager.java:131-140 | without a qualifying active network: throws exactly when info is missing; null exactly when no qualifying network is Ethernet, Wi-Fi, WiMAX or mobile; otherwise the last qualifying network of the best-ranked type |
| NetworkManager.Connectivity.BindProcessToNetwork | src/android/org/uproxy/tun2socks/NetworkManager.java:83 | the bound network changes only when the platform accepts |
| NetworkManager.NetworkManager.BindProcessToActiveNetwork | src/android/org/uproxy/tun2socks/NetworkManager.java:64-87 | nothing happens without a service, without a candidate or when already bound to it; otherwise the process is bound if the platform accepts; the NullPointerException escapes |
| NetworkManager.NewNetworkManager | src/android/org/uproxy/tun2socks/NetworkManager.java:28-46 | construction binds the process as `BindProcessToActiveNetwork` does; when that binding throws, the constructor throws the same exception and yields no manager |
| NetworkManager.BindOf | src/android/org/uproxy/tun2socks/NetworkManager.java:64-87 | one bind attempt: the bound network changes only when the platform accepts, with no exception raised, to a network; the only exception is a NullPointerException. BindOnlyToQualifying and BindIdempotent state what it binds to |
| NetworkManager.BindOnlyToQualifying | src/android/org/uproxy/tun2socks/NetworkManager.java:61-87 | the process is only ever rebound to a qualifying non-VPN network, and only when the platform accepts |
| NetworkManager.BindIdempotent | src/android/org/uproxy/tun2socks/NetworkManager.java:61-63 | once bound to the selected network, another call with the same platform state changes nothing |
| TunnelState.TunnelState.constructor | android/java/org/uproxy/tun2socks/TunnelState.java:19-22 | a new state has no manager, is not starting and is not running |
| TunnelState.TunnelState.SetTunnelManager | android/java/org/uproxy/tun2socks/TunnelState.java:24-27 | the manager is recorded and the starting flag always cleared, so running holds exactly when the manager is not null |
| TunnelState.TunnelState.GetTunnelManager | android/java/org/uproxy/tun2socks/TunnelState.java:29-31 | the manager is returned and nothing changes |
| TunnelState.TunnelState.SetStartingTunnelManager | android/java/org/uproxy/tun2socks/TunnelState.java:33-35 | the flag is set, the manager is unchanged and the service counts as running |
| TunnelState.TunnelState.GetStartingTunnelManager | android/java/org/uproxy/tun2socks/TunnelState.java:37-39 | the flag is returned and nothing changes |
| TunnelState.Registry.GetTunnelState | android/java/org/uproxy/tun2socks/TunnelState.java:12-17 | the first call creates a fresh, idle instance; every later call returns that same instance |
| TunnelState.Registry.IsServiceRunning | src/android/org/uproxy/tun2socks/Tun2Socks.java:158-161 | running is "starting or a manager is present"; it is false on a first call |
| TunnelState.Registry.StartThenStop | src/android/org/uproxy/tun2socks/Tun2Socks.java:158-161 | after starting, recording a manager and then recording null, the service is not running |

## Left out

- I/O failures on reads: input streams never raise an IOException mid-stream, only at end of stream. Writes fail with IOException only once the stream is closed.
- Threads, the executor and its ten workers, `interrupt`, and logging are left out. Each relay thread and each worker is modelled as a method run to completion. The receive loop is modelled over a finite run of receive events.
- TLS and `SSLContext` are left out, as is proxy host resolution in the forwarder and in the SOCKS `Socks5Proxy`/`SocksSocket` library. The forwarder is modelled from the point its TLS socket is up. Base64 is a function parameter, and so is `SocksCallback.connect`, as a predicate on the destination.
- `DatagramSocket.send` is a boolean parameter of the worker, and so is the platform's answer to `bindProcessToNetwork`. The ConnectivityManager is its state: active network, all networks, info records, bound network.
- The `DnsResolverService` run loop (`DnsUdpToHttps.run`) is not modelled as a loop. Its steps (the check, name and ID parsing, request, response and ID rewrite) are modelled one by one, and `RequestIdRoundTrip` ties the last two together.
- `dns_get_header_id_str`, `bytesToHex`, `broadcastUdpSocketAddress`, `NetworkManager.destroy` and `connectivityChanged` are left out. So are the broadcast receiver and `TunnelState.clone`: they only log, broadcast or delegate to `bindProcessToActiveNetwork`.
- DnsProto.DnsGetName: `dns_get_name` is declared `int` but returns nothing; the model has no result. It also does not model reading past the end of the data, which C leaves undefined. It requires a name that decodes within the data and a large enough output buffer.
- DnsProto.DnsEncodeName: requires the output buffer to hold `length + 2` octets, which the source assumes. The name and data buffers that are only read are modelled as values.
- DnsProto.DnsCheck: ARCOUNT plays no part, as in the source. The counts are compared raw, so byte order does not matter to zero or nonzero.
- DnsResolverService.WriteRequestIdToDnsResponse: on a response shorter than two octets it returns false. In the source the BufferOverflowException escapes, and the outer handler of the run loop ends the resolver thread.
- Bit masks (`& 0x80`, `& 0x70`, `| rcode`, `& ~0x0F`) are computed arithmetically on octets rather than with bit-vector types.
- `DataInputStream.readLine` and `PrintWriter.println` are modelled on octets. `println` ends lines with "\n" on Android, not "\r\n". The reader accepts LF, CR and CR LF.
- HttpForwarder.AwaitResponse: when the proxy closes the stream before the empty line, the source loops forever. The model returns `Hangs` there, and `EndOfStreamNeverTerminates` shows the loop could never stop.
- DnsResolverService.DnsHttpRequestLines and HttpForwarder.ConnectHeaderLines: these are stated for names and hosts without CR or LF. The source does not escape such octets, and a name holding them would inject extra lines.
- Java `String` decoding of non-ASCII octets (`new String(bytes)`) is left out. Names and hosts are kept as their octets.
- The IPv6 text of `getHostAddress` is modelled as the platform's `inet_ntop` renders it. A scope suffix (`%n`) is left out: addresses built from SOCKS octets carry no scope.
- `InetSocketAddress` hostname resolution and `InetAddress.getByName` are left out. An unresolved destination keeps its name.

Where the source and its design description differ, the model follows the source:
- `DnsUdpToSocksResolver` checks each query inside the worker, not before queueing it.
- Its pool has an unbounded queue, so no query is ever dropped.
- It does not rewrite the reply's ID.
- `DnsResolverService` ends its request lines with "\n".
