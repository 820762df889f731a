/** The DNS message header (section 4.1.1 of RFC 1035) as both Java resolvers
    read it: ID, the QR/Opcode/AA/TC/RD octet, the RA/Z/RCODE octet, then
    QDCOUNT, ANCOUNT, NSCOUNT and ARCOUNT, each 16 bits big-endian. The two
    Java classes carry identical copies of the query check
    (DnsUdpToSocksResolver.isValidDnsRequest and
    DnsResolverService.validateDnsRequest); it is defined once here. */
module DnsHeader {
  import opened JavaLang

  const DNS_HEADER_SIZE: nat := 12
  const QR_OPCODE_AA_TC_OFFSET: nat := 2
  const RA_Z_R_CODE_OFFSET: nat := 3
  const QDCOUNT_OFFSET: nat := 4
  const ANCOUNT_OFFSET: nat := 6
  const NSCOUNT_OFFSET: nat := 8

  const DNS_QR: byte := 0x80
  const DNS_Z: byte := 0x70

  /** `octet & DNS_QR`: the QR bit, in place. The masks are applied to the
      octets: widening a Java byte to int changes none of the masked bits. */
  function MaskQr(octet: byte): (m: int)
    ensures m == 0 || m == DNS_QR
    ensures m == 0 <==> octet < 0x80
  {
    octet / 0x80 * 0x80
  }

  /** `octet & DNS_Z`: bits 4 to 6, in place. */
  function MaskZ(octet: byte): (m: int)
    ensures 0 <= m <= DNS_Z && m % 16 == 0
    ensures m == 0 <==> octet % 128 < 16
  {
    (octet / 16) % 8 * 16
  }

  /** ByteBuffer.getShort(i): a signed big-endian 16-bit value. */
  function GetShort(data: seq<byte>, i: nat): (v: int)
    requires i + 2 <= |data|
    ensures -0x8000 <= v < 0x8000
  {
    ToShort(BigEndian16(data[i], data[i + 1]))
  }

  /** The Java check of a received datagram, given as its buffer and the
      received length (DatagramPacket.getData and getLength). */
  predicate ValidateDnsRequest(buffer: seq<byte>, length: nat)
    requires length <= |buffer|
    ensures ValidateDnsRequest(buffer, length) ==> length >= DNS_HEADER_SIZE && buffer[QR_OPCODE_AA_TC_OFFSET] < 0x80
  {
    if length < DNS_HEADER_SIZE then false
    else
      var qrOpcodeAaTcRd := buffer[QR_OPCODE_AA_TC_OFFSET];
      var raZRcode := buffer[RA_Z_R_CODE_OFFSET];
      var qdcount := GetShort(buffer, QDCOUNT_OFFSET);
      var ancount := GetShort(buffer, ANCOUNT_OFFSET);
      var nscount := GetShort(buffer, NSCOUNT_OFFSET);
      && MaskQr(qrOpcodeAaTcRd) == 0
      && MaskZ(raZRcode) == 0
      && qdcount > 0
      && nscount == 0
      && ancount == 0
  }

  /** The check of a packet whose buffer is exactly its bytes. */
  predicate IsValidDnsRequest(packet: seq<byte>)
    ensures IsValidDnsRequest(packet) ==> |packet| >= DNS_HEADER_SIZE
  {
    ValidateDnsRequest(packet, |packet|)
  }

  /** What the check accepts, in the header's own terms: at least a whole
      header, a query (QR clear), Z clear, between 1 and 0x7FFF questions
      (QDCOUNT is read as a signed short), no answer and no authority
      records. ID, Opcode, AA, TC, RD, RA, RCODE, ARCOUNT and anything after
      the header play no part. */
  lemma ValidDnsRequestMeaning(packet: seq<byte>)
    ensures IsValidDnsRequest(packet) <==>
      && |packet| >= 12
      && packet[2] < 0x80
      && packet[3] % 128 < 16
      && 1 <= BigEndian16(packet[4], packet[5]) < 0x8000
      && packet[6] == 0 && packet[7] == 0
      && packet[8] == 0 && packet[9] == 0
  {
  }

  /** The resolver that checks the shared receive buffer (DnsResolverService)
      decides exactly as one that checks a copy of the received bytes
      (DnsUdpToSocksResolver). */
  lemma ValidateOnBufferIsOnCopy(buffer: seq<byte>, length: nat)
    requires length <= |buffer|
    ensures ValidateDnsRequest(buffer, length) == IsValidDnsRequest(buffer[..length])
  {
  }
}
