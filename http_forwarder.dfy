/** The upstream connector behind the SOCKS server: BasicHttpSocksForwarder
    opens a TLS connection to an HTTPS proxy, asks it for a tunnel with an
    HTTP/1.1 CONNECT request (section 4.3.6 of RFC 7231), optionally with
    Basic proxy credentials, waits for the end of the proxy's response header
    block, and then copies the SOCKS client's upload bytes to the proxy. The
    TLS session itself is a given connected socket here, and Base64 is a
    parameter. */
module HttpForwarder {
  import opened JavaLang
  import opened Streams
  import opened SocksBinder
  import Relay

  /** The end of an HTTP header block: an empty line. */
  const BLANK_LINE: seq<byte> := [13, 10, 13, 10]

  // ---------------------------------------------------------------------
  // The request target
  // ---------------------------------------------------------------------

  /** A lower-case hexadecimal digit. */
  function HexDigit(d: nat): (c: byte)
    requires d < 16
    ensures IsHexDigit(c)
  {
    if d < 10 then 48 + d else 87 + d
  }

  predicate IsHexDigit(c: byte)
  {
    48 <= c <= 57 || 97 <= c <= 102
  }

  /** Integer.toHexString of a non-negative value: no leading zeros. */
  function Hex(v: nat): (h: seq<byte>)
    ensures |h| >= 1
    ensures forall i | 0 <= i < |h| :: IsHexDigit(h[i])
    decreases v
  {
    if v < 16 then [HexDigit(v)] else Hex(v / 16) + [HexDigit(v % 16)]
  }

  /** Inet4Address.getHostAddress: dotted decimal. */
  function DottedQuad(octets: seq<byte>): (t: seq<byte>)
    requires |octets| == 4
    ensures forall i | 0 <= i < |t| :: IsDigit(t[i]) || t[i] == DOT
  {
    Decimal(octets[0]) + [DOT] + Decimal(octets[1]) + [DOT] + Decimal(octets[2]) + [DOT] + Decimal(octets[3])
  }

  /** The sixteen octets of an IPv6 address as its eight 16-bit groups. */
  function Groups(octets: seq<byte>): (g: seq<nat>)
    requires |octets| == 16
    ensures |g| == 8
    ensures forall i | 0 <= i < 8 :: g[i] == BigEndian16(octets[2 * i], octets[2 * i + 1])
  {
    seq(8, i requires 0 <= i < 8 => BigEndian16(octets[2 * i], octets[2 * i + 1]))
  }

  /** The number of zero groups from group i on, up to the first nonzero
      group or the end. */
  function ZeroRunAt(g: seq<nat>, i: nat): (n: nat)
    requires i <= |g|
    ensures i + n <= |g|
    ensures forall k | i <= k < i + n :: g[k] == 0
    ensures i + n == |g| || g[i + n] != 0
    decreases |g| - i
  {
    if i == |g| || g[i] != 0 then 0 else 1 + ZeroRunAt(g, i + 1)
  }

  /** The first group at or after i where a longest run of zero groups
      starts. */
  function LongestRunStart(g: seq<nat>, i: nat): (b: nat)
    requires i <= |g|
    ensures i <= b <= |g|
    ensures forall j | i <= j <= |g| :: ZeroRunAt(g, j) <= ZeroRunAt(g, b)
    ensures forall j | i <= j < b :: ZeroRunAt(g, j) < ZeroRunAt(g, b)
    decreases |g| - i
  {
    if i == |g| then i
    else
      var rest := LongestRunStart(g, i + 1);
      if ZeroRunAt(g, i) >= ZeroRunAt(g, rest) then i else rest
  }

  /** The zero groups written as "::" (section 4.2 of RFC 5952, which
      inet_ntop follows): the first of the longest runs of zero groups,
      as (first group, number of groups), when it spans two groups or more. */
  function Elided(g: seq<nat>): Option<(nat, nat)>
  {
    var b := LongestRunStart(g, 0);
    var l := ZeroRunAt(g, b);
    if l < 2 then None else Some((b, l))
  }

  /** The elided run is a whole run of zero groups, no run is longer and
      every run that starts before it is shorter; nothing is elided exactly
      when no two neighbouring groups are both zero. */
  lemma ElidedRun(g: seq<nat>)
    ensures Elided(g).None? <==> forall j | 0 <= j < |g| - 1 :: g[j] != 0 || g[j + 1] != 0
    ensures Elided(g).Some? ==>
      var b, l := Elided(g).value.0, Elided(g).value.1;
      && 2 <= l && b + l <= |g|
      && (forall k | b <= k < b + l :: g[k] == 0)
      && (b + l == |g| || g[b + l] != 0)
      && (b == 0 || g[b - 1] != 0)
      && (forall j | 0 <= j <= |g| :: ZeroRunAt(g, j) <= l)
      && (forall j | 0 <= j < b :: ZeroRunAt(g, j) < l)
  {
    var b := LongestRunStart(g, 0);
    var l := ZeroRunAt(g, b);
    if l >= 2 {
      if b > 0 {
        RunExtendsBack(g, b);
      }
      assert g[b] == 0 && g[b + 1] == 0;
    } else {
      forall j | 0 <= j < |g| - 1
        ensures g[j] != 0 || g[j + 1] != 0
      {
        RunExtendsBack(g, j + 1);
      }
    }
  }

  lemma RunExtendsBack(g: seq<nat>, i: nat)
    requires 0 < i <= |g|
    ensures ZeroRunAt(g, i - 1) == if g[i - 1] == 0 then 1 + ZeroRunAt(g, i) else 0
  {
  }

  /** Hexadecimal groups separated by colons. */
  function HexGroups(g: seq<nat>): (t: seq<byte>)
    ensures forall j | 0 <= j < |t| :: IsHexDigit(t[j]) || t[j] == COLON
    ensures |g| >= 2 ==> COLON in t
  {
    if g == [] then []
    else if |g| == 1 then Hex(g[0])
    else Hex(g[0]) + [COLON] + HexGroups(g[1..])
  }

  /** Inet6Address.getHostAddress as the platform computes it (getnameinfo
      with NI_NUMERICHOST, that is inet_ntop): the groups in lower-case
      hexadecimal without leading zeros and separated by colons, the elided
      run replaced by "::", and an address whose first six groups are zero
      (or five zero groups and ffff) ending in dotted decimal. */
  function Ipv6Text(octets: seq<byte>): (t: seq<byte>)
    requires |octets| == 16
    ensures COLON in t
  {
    GroupsText(Groups(octets), octets[12..])
  }

  /** The text of the groups `g`, whose last four octets are `low`. */
  function GroupsText(g: seq<nat>, low: seq<byte>): (t: seq<byte>)
    requires |g| == 8 && |low| == 4
    ensures COLON in t
  {
    var elided := Elided(g);
    if elided.None? then HexGroups(g)
    else
      var b, l := elided.value.0, elided.value.1;
      if b == 0 && l == 6 then [COLON, COLON] + DottedQuad(low)
      else if b == 0 && l == 5 && g[5] == 0xFFFF then [COLON, COLON] + FFFF + [COLON] + DottedQuad(low)
      else HexGroups(g[..b]) + [COLON, COLON] + HexGroups(g[b + l..])
  }

  /** "ffff" */
  const FFFF: seq<byte> := [102, 102, 102, 102]

  /** ::1, the IPv6 loopback address. */
  const LOOPBACK: seq<byte> := [0, 0, 0, 0, 0, 0, 0, 0, 0, 0, 0, 0, 0, 0, 0, 1]

  /** The loopback address is written "::1". */
  lemma LoopbackText()
    ensures Ipv6Text(LOOPBACK) == [COLON, COLON, 49]
  {
    var g := Groups(LOOPBACK);
    LoopbackElided(g);
    assert g[..0] == [] && g[7..] == [1];
    assert HexGroups(g[7..]) == [49];
    assert GroupsText(g, LOOPBACK[12..]) == HexGroups(g[..0]) + [COLON, COLON] + HexGroups(g[7..]);
    assert HexGroups(g[..0]) + [COLON, COLON] + HexGroups(g[7..]) == [COLON, COLON, 49];
  }

  /** The seven leading zero groups of ::1 are the run written "::". */
  lemma LoopbackElided(g: seq<nat>)
    requires g == Groups(LOOPBACK)
    ensures g[7] == 1 && Elided(g) == Some((0, 7))
  {
    assert g[7] == 1;
    assert ZeroRunAt(g, 7) == 0;
    assert ZeroRunAt(g, 6) == 1;
    assert ZeroRunAt(g, 5) == 2;
    assert ZeroRunAt(g, 4) == 3;
    assert ZeroRunAt(g, 3) == 4;
    assert ZeroRunAt(g, 2) == 5;
    assert ZeroRunAt(g, 1) == 6;
    assert ZeroRunAt(g, 0) == 7;
    assert LongestRunStart(g, 0) == 0;
  }

  function HostAddress(a: InetAddr): (t: seq<byte>)
    requires a.Inet4? ==> |a.octets| == 4
    requires a.Inet6? ==> |a.octets| == 16
  {
    if a.Inet4? then DottedQuad(a.octets) else Ipv6Text(a.octets)
  }

  predicate WellFormedDestination(d: Destination)
  {
    d.Resolved? ==> (d.address.Inet4? ==> |d.address.octets| == 4) && (d.address.Inet6? ==> |d.address.octets| == 16)
  }

  /** The host part of the CONNECT target: an unresolved name as given, an
      address as text, bracketed when the text holds a colon. */
  function RequestHost(d: Destination): (h: seq<byte>)
    requires WellFormedDestination(d)
  {
    if d.Unresolved? then d.hostname
    else
      var ip := HostAddress(d.address);
      if Contains(ip, [COLON]) then [91] + ip + [93] else ip
  }

  /** host ":" port, the request-target of the CONNECT request. */
  function RequestTarget(d: Destination): (t: seq<byte>)
    requires WellFormedDestination(d) && d.port >= 0
    ensures |t| > |RequestHost(d)| && t[..|RequestHost(d)|] == RequestHost(d) && t[|RequestHost(d)|] == COLON
  {
    RequestHost(d) + [COLON] + Decimal(d.port)
  }

  /** An address is bracketed exactly when it is an IPv6 address. */
  lemma HostBracketsIpv6(d: Destination)
    requires WellFormedDestination(d) && d.Resolved?
    ensures var h := RequestHost(d);
      && (d.address.Inet6? <==> |h| > 0 && h[0] == 91)
      && (d.address.Inet6? ==> h == [91] + HostAddress(d.address) + [93])
      && (d.address.Inet4? ==> h == DottedQuad(d.address.octets))
  {
    var ip := HostAddress(d.address);
    if d.address.Inet6? {
      ContainsByte(ip, COLON);
    } else {
      ContainsByte(ip, COLON);
      assert IsDigit(ip[0]);
    }
  }

  /** The port is the text after the target's last colon, and reads back. */
  lemma TargetPortReadsBack(d: Destination)
    requires WellFormedDestination(d) && 0 <= d.port <= 0xFFFF
    ensures var t := RequestTarget(d);
      var i := LastIndexOf(t, COLON);
      && i == |RequestHost(d)|
      && ParseInt(t[i + 1..]) == Some(d.port)
  {
    PortAfterLastColon(RequestHost(d), d.port);
  }

  lemma PortAfterLastColon(h: seq<byte>, port: nat)
    requires port <= 0xFFFF
    ensures var t := h + [COLON] + Decimal(port);
      var i := LastIndexOf(t, COLON);
      && i == |h|
      && ParseInt(t[i + 1..]) == Some(port)
  {
    var t := h + [COLON] + Decimal(port);
    assert t[|h|] == COLON;
    assert forall j | |h| < j < |t| :: t[j] == Decimal(port)[j - |h| - 1];
    assert t[|h| + 1..] == Decimal(port);
    ParseIntOfDecimal(port);
  }

  // ---------------------------------------------------------------------
  // The CONNECT request
  // ---------------------------------------------------------------------

  function RequestLine(d: Destination): (l: seq<byte>)
    requires WellFormedDestination(d) && d.port >= 0
  {
    Ascii("CONNECT ") + RequestTarget(d) + Ascii(" HTTP/1.1")
  }

  /** Whether a Proxy-Authorization header is sent: a username or a password
      was configured, even an empty one. */
  predicate HasCredentials(username: Option<seq<byte>>, password: Option<seq<byte>>)
  {
    username.Some? || password.Some?
  }

  /** "user:password", a missing half being empty. */
  function UserPass(username: Option<seq<byte>>, password: Option<seq<byte>>): seq<byte>
  {
    (if username.Some? then username.value else []) + [COLON] + (if password.Some? then password.value else [])
  }

  function AuthLine(username: Option<seq<byte>>, password: Option<seq<byte>>, base64: seq<byte> -> seq<byte>): seq<byte>
  {
    Ascii("Proxy-Authorization: Basic ") + base64(UserPass(username, password))
  }

  /** The whole request the forwarder writes to the proxy. */
  function ConnectHeaders(d: Destination, username: Option<seq<byte>>, password: Option<seq<byte>>,
                          base64: seq<byte> -> seq<byte>): (h: seq<byte>)
    requires WellFormedDestination(d) && d.port >= 0
  {
    RequestLine(d) + CRLF
    + (if HasCredentials(username, password) then AuthLine(username, password, base64) + CRLF else [])
    + CRLF
  }

  /** Read line by line, the request is the request line, the authorization
      line exactly when credentials are configured, and the empty line that
      ends it; provided neither the host nor the Base64 text holds a line
      break. */
  lemma ConnectHeaderLines(d: Destination, username: Option<seq<byte>>, password: Option<seq<byte>>,
                           base64: seq<byte> -> seq<byte>)
    requires WellFormedDestination(d) && d.port >= 0
    requires NoLineBreak(RequestHost(d)) && NoLineBreak(base64(UserPass(username, password)))
    ensures LinesOf(ConnectHeaders(d, username, password, base64)) ==
      [RequestLine(d)]
      + (if HasCredentials(username, password) then [AuthLine(username, password, base64)] else [])
      + [[]]
  {
    if HasCredentials(username, password) {
      LinesWithAuth(d, username, password, base64);
    } else {
      LinesWithoutAuth(d, username, password, base64);
    }
  }

  lemma LinesWithAuth(d: Destination, username: Option<seq<byte>>, password: Option<seq<byte>>,
                      base64: seq<byte> -> seq<byte>)
    requires WellFormedDestination(d) && d.port >= 0 && HasCredentials(username, password)
    requires NoLineBreak(RequestHost(d)) && NoLineBreak(base64(UserPass(username, password)))
    ensures LinesOf(ConnectHeaders(d, username, password, base64)) ==
      [RequestLine(d), AuthLine(username, password, base64), []]
  {
    var l1 := RequestLine(d);
    var l2 := AuthLine(username, password, base64);
    NoLineBreakInRequestLine(d);
    NoLineBreakInAuthLine(username, password, base64);
    LinesOfBlank();
    LinesOfCrLf(l2, CRLF);
    assert ConnectHeaders(d, username, password, base64) == l1 + CRLF + (l2 + CRLF + CRLF);
    LinesOfCrLf(l1, l2 + CRLF + CRLF);
  }

  lemma LinesWithoutAuth(d: Destination, username: Option<seq<byte>>, password: Option<seq<byte>>,
                         base64: seq<byte> -> seq<byte>)
    requires WellFormedDestination(d) && d.port >= 0 && !HasCredentials(username, password)
    requires NoLineBreak(RequestHost(d))
    ensures LinesOf(ConnectHeaders(d, username, password, base64)) == [RequestLine(d), []]
  {
    var l1 := RequestLine(d);
    NoLineBreakInRequestLine(d);
    LinesOfBlank();
    assert ConnectHeaders(d, username, password, base64) == l1 + CRLF + CRLF;
    LinesOfCrLf(l1, CRLF);
  }

  lemma NoLineBreakInRequestLine(d: Destination)
    requires WellFormedDestination(d) && d.port >= 0
    requires NoLineBreak(RequestHost(d))
    ensures NoLineBreak(RequestLine(d))
  {
    var digits := Decimal(d.port);
    assert forall i | 0 <= i < |digits| :: IsDigit(digits[i]);
    assert NoLineBreak(RequestTarget(d));
    AsciiNoLineBreak("CONNECT ");
    AsciiNoLineBreak(" HTTP/1.1");
  }

  lemma NoLineBreakInAuthLine(username: Option<seq<byte>>, password: Option<seq<byte>>, base64: seq<byte> -> seq<byte>)
    requires NoLineBreak(base64(UserPass(username, password)))
    ensures NoLineBreak(AuthLine(username, password, base64))
  {
    AsciiNoLineBreak("Proxy-Authorization: Basic ");
  }

  // ---------------------------------------------------------------------
  // Waiting for the proxy's response
  // ---------------------------------------------------------------------

  /** Whether the first `k` bytes of `s` end with an empty line. */
  predicate EndsAt(s: seq<byte>, k: nat)
  {
    4 <= k <= |s| && s[k - 4..k] == BLANK_LINE
  }

  /** The length of the shortest prefix of `s`, of at least `from` bytes,
      that ends with an empty line; None if there is none. */
  function HeaderEnd(s: seq<byte>, from: nat): (e: Option<nat>)
    ensures e.Some? ==> from <= e.value <= |s| && EndsAt(s, e.value)
    ensures e.Some? ==> forall j | from <= j < e.value :: !EndsAt(s, j)
    ensures e.None? ==> forall j | from <= j <= |s| :: !EndsAt(s, j)
    decreases |s| - from
  {
    if from > |s| then None
    else if EndsAt(s, from) then Some(from)
    else HeaderEnd(s, from + 1)
  }

  /** The character String(byte[], US-ASCII) makes of one byte: the byte
      itself when it is ASCII, U+FFFD otherwise. */
  function AsciiChar(b: byte): (c: int)
    ensures c == 13 <==> b == 13
    ensures c == 10 <==> b == 10
  {
    if b < 128 then b else 0xFFFD
  }

  function AsciiString(s: seq<byte>): (t: seq<int>)
    ensures |t| == |s|
    ensures forall i | 0 <= i < |s| :: t[i] == AsciiChar(s[i])
  {
    seq(|s|, i requires 0 <= i < |s| => AsciiChar(s[i]))
  }

  /** The decoded text ends with CR LF CR LF exactly when its bytes do. */
  lemma EndsWithBlankLine(s: seq<byte>)
    ensures EndsWith(AsciiString(s), [13, 10, 13, 10]) <==> EndsAt(s, |s|)
  {
    var t := AsciiString(s);
    if |s| >= 4 && EndsWith(t, [13, 10, 13, 10]) {
      assert t[|s| - 4..][0] == 13 && t[|s| - 4..][1] == 10 && t[|s| - 4..][2] == 13 && t[|s| - 4..][3] == 10;
      assert s[|s| - 4..] == BLANK_LINE;
    }
  }

  /** Once the stream has ended, every further read appends U+FFFD, so a
      response that did not end with an empty line never will. */
  lemma EndOfStreamNeverTerminates(response: seq<int>, extra: nat)
    requires extra > 0
    ensures !EndsWith(response + seq(extra, _ => 0xFFFD), [13, 10, 13, 10])
  {
    var t := response + seq(extra, _ => 0xFFFD);
    assert t[|t| - 1] == 0xFFFD;
  }

  datatype ResponseWait = Complete(response: seq<int>) | Hangs

  /** The loop that reads the proxy's response one byte at a time until it
      ends with CR LF CR LF. The response is never inspected: any status,
      407 included, lets the tunnel go ahead. At end of stream the source
      keeps reading forever (see EndOfStreamNeverTerminates); that outcome is
      Hangs here. */
  method AwaitResponse(down: InStream) returns (w: ResponseWait)
    requires down.Valid()
    modifies down
    ensures down.Valid()
    ensures match HeaderEnd(old(down.Remaining()), 0)
      case Some(e) => w == Complete(AsciiString(old(down.Remaining())[..e])) && down.pos == old(down.pos) + e
      case None => w == Hangs && down.Remaining() == []
  {
    ghost var s := down.Remaining();
    ghost var got: seq<byte> := [];
    var response: seq<int> := [];
    EndsWithBlankLine([]);
    while !EndsWith(response, [13, 10, 13, 10])
      invariant down.Valid() && down.pos == old(down.pos) + |got| && got == s[..|got|]
      invariant response == AsciiString(got)
      invariant forall j | 0 <= j < |got| :: !EndsAt(s, j)
      invariant EndsWith(response, [13, 10, 13, 10]) <==> EndsAt(s, |got|)
      decreases |s| - |got|
    {
      var c := down.Read();
      if c == -1 {
        HeaderEndNone(s, |got|);
        return Hangs;
      }
      got := ScanStep(s, got, response, c);
      response := response + [AsciiChar(c)];
    }
    HeaderEndSome(s, |got|);
    w := Complete(response);
  }

  /** One more byte read by AwaitResponse, still short of the empty line. */
  lemma ScanStep(s: seq<byte>, got: seq<byte>, response: seq<int>, c: byte) returns (got': seq<byte>)
    requires |got| < |s| && got == s[..|got|] && response == AsciiString(got) && c == s[|got|]
    requires forall j | 0 <= j < |got| :: !EndsAt(s, j)
    requires !EndsAt(s, |got|)
    ensures got' == got + [c] && got' == s[..|got'|]
    ensures response + [AsciiChar(c)] == AsciiString(got')
    ensures forall j | 0 <= j < |got'| :: !EndsAt(s, j)
    ensures EndsWith(response + [AsciiChar(c)], [13, 10, 13, 10]) <==> EndsAt(s, |got'|)
  {
    got' := got + [c];
    assert got' == s[..|got'|];
    EndsWithBlankLine(got');
    assert EndsAt(got', |got'|) <==> EndsAt(s, |got'|) by {
      if |got'| >= 4 {
        assert got'[|got'| - 4..|got'|] == s[|got'| - 4..|got'|];
      }
    }
  }

  /** The first prefix ending in an empty line is the one HeaderEnd finds. */
  lemma HeaderEndSome(s: seq<byte>, k: nat)
    requires EndsAt(s, k) && forall j | 0 <= j < k :: !EndsAt(s, j)
    ensures HeaderEnd(s, 0) == Some(k)
  {
  }

  /** With no prefix ending in an empty line, HeaderEnd finds none. */
  lemma HeaderEndNone(s: seq<byte>, k: nat)
    requires k == |s| && !EndsAt(s, k) && forall j | 0 <= j < k :: !EndsAt(s, j)
    ensures HeaderEnd(s, 0) == None
  {
  }

  /** A proxy that has seen the request reads it up to its empty line, and
      not a byte sooner (when the host and Base64 text hold no line break). */
  lemma ConnectHeadersEndOnce(d: Destination, username: Option<seq<byte>>, password: Option<seq<byte>>,
                              base64: seq<byte> -> seq<byte>)
    requires WellFormedDestination(d) && d.port >= 0
    requires NoLineBreak(RequestHost(d)) && NoLineBreak(base64(UserPass(username, password)))
    ensures var h := ConnectHeaders(d, username, password, base64);
      HeaderEnd(h, 0) == Some(|h|)
  {
    NoLineBreakInRequestLine(d);
    if HasCredentials(username, password) {
      NoLineBreakInAuthLine(username, password, base64);
      BlankLineOnlyAtEnd(RequestLine(d), Some(AuthLine(username, password, base64)));
    } else {
      BlankLineOnlyAtEnd(RequestLine(d), None);
    }
  }

  /** Lines free of line breaks, each ended by CR LF, then an empty line: the
      first empty line is the last one. */
  lemma BlankLineOnlyAtEnd(l1: seq<byte>, l2: Option<seq<byte>>)
    requires NoLineBreak(l1)
    requires l2.Some? ==> NoLineBreak(l2.value) && |l2.value| > 0
    ensures var h := l1 + CRLF + (if l2.Some? then l2.value + CRLF else []) + CRLF;
      HeaderEnd(h, 0) == Some(|h|)
  {
    var h := l1 + CRLF + (if l2.Some? then l2.value + CRLF else []) + CRLF;
    var a := |l1|;
    var b := if l2.Some? then a + 2 + |l2.value| else a;
    assert |h| == b + 4;
    assert h[|h| - 4..|h|] == BLANK_LINE;
    assert EndsAt(h, |h|);
    // The only CRs are at a, at b and at |h| - 2.
    forall j | 0 <= j < |h| && j != a && j != b && j != |h| - 2
      ensures h[j] != CR
    {
      if j < a {
        assert h[j] == l1[j];
      } else if l2.Some? && a + 2 <= j < b {
        assert h[j] == l2.value[j - a - 2];
      }
    }
    forall k | 0 <= k < |h|
      ensures !EndsAt(h, k)
    {
      if k >= 4 {
        assert !(h[k - 4] == CR && h[k - 2] == CR);
        assert h[k - 4..k][0] == h[k - 4] && h[k - 4..k][2] == h[k - 2];
        assert BLANK_LINE[0] == CR && BLANK_LINE[2] == CR;
      }
    }
  }

  // ---------------------------------------------------------------------
  // connect()
  // ---------------------------------------------------------------------

  /** What connect returns: the proxy's input stream as the download side,
      null, or never returns. */
  datatype ConnectOutcome = Connected(down: InStream) | Failed | NeverReturns

  /** connect() once the TLS socket to the proxy is up: write the request
      (an IOException gives null), then wait for the response. On success
      the caller is handed the proxy's input stream and the upload relay
      (RelayUpload) is started. */
  method Connect(proxy: Socket, d: Destination, username: Option<seq<byte>>, password: Option<seq<byte>>,
                 base64: seq<byte> -> seq<byte>) returns (o: ConnectOutcome)
    requires WellFormedDestination(d) && d.port >= 0 && proxy.input.Valid()
    modifies proxy.input, proxy.output
    ensures proxy.input.Valid()
    ensures old(proxy.output.closed) ==> o == Failed && proxy.output.written == old(proxy.output.written) && proxy.input.pos == old(proxy.input.pos)
    ensures !old(proxy.output.closed) ==>
      && proxy.output.written == old(proxy.output.written) + ConnectHeaders(d, username, password, base64)
      && match HeaderEnd(old(proxy.input.Remaining()), 0)
         case Some(e) => o == Connected(proxy.input) && proxy.input.pos == old(proxy.input.pos) + e
         case None => o == NeverReturns && proxy.input.Remaining() == []
  {
    var headers := ConnectHeaders(d, username, password, base64);
    var written := proxy.output.Write(headers);
    if !written {
      return Failed;
    }
    var w := AwaitResponse(proxy.input);
    if w.Hangs? {
      return NeverReturns;
    }
    return Connected(proxy.input);
  }

  /** The upload thread: every byte the SOCKS client sends goes to the proxy,
      in order and unchanged; at end of stream the proxy's output and socket
      are closed. */
  method RelayUpload(up: InStream, proxy: Socket)
    requires up.Valid() && !proxy.output.closed
    modifies up, proxy, proxy.output
    ensures proxy.output.written == old(proxy.output.written) + old(up.Remaining())
    ensures proxy.output.closed && proxy.closed
  {
    Relay.CopyUntilEnd(up, proxy);
  }
}
