/** badvpn's DNS helpers (dns_proto.h), used by the native packet engine:
    the query check on a raw header, the QR and RCODE bits, the compression
    pointer of section 4.1.4 of RFC 1035, and the name encoder and decoder
    for the length-prefixed labels of sections 3.1 and 4.1.2 of RFC 1035.
    Buffers are arrays of octets; a C string is an array holding a NUL. */
module DnsProto {
  import opened JavaLang
  import DnsHeader

  const DNS_HEADER_SIZE: nat := 12

  // ---------------------------------------------------------------------
  // dns_check
  // ---------------------------------------------------------------------

  /** The test dns_check applies to a copied header. The counts are the raw
      16-bit fields; whether one is zero does not depend on byte order. */
  predicate HeaderAccepts(header: seq<byte>)
    requires |header| == DNS_HEADER_SIZE
  {
    && DnsHeader.MaskQr(header[2]) == 0
    && DnsHeader.MaskZ(header[3]) == 0
    && (header[4] != 0 || header[5] != 0)
    && header[8] == 0 && header[9] == 0
    && header[6] == 0 && header[7] == 0
  }

  /** dns_check: too short a message is refused with the header left alone;
      otherwise the first 12 octets are copied out and tested. */
  method DnsCheck(data: array<byte>, dataLen: int, outHeader: array<byte>) returns (ok: bool)
    requires 0 <= dataLen <= data.Length && outHeader.Length == DNS_HEADER_SIZE && data != outHeader
    modifies outHeader
    ensures dataLen < DNS_HEADER_SIZE ==> !ok && outHeader[..] == old(outHeader[..])
    ensures dataLen >= DNS_HEADER_SIZE ==> outHeader[..] == data[..DNS_HEADER_SIZE] && ok == HeaderAccepts(data[..DNS_HEADER_SIZE])
  {
    if dataLen < DNS_HEADER_SIZE {
      return false;
    }
    forall i | 0 <= i < DNS_HEADER_SIZE {
      outHeader[i] := data[i];
    }
    ok := HeaderAccepts(outHeader[..]);
  }

  /** The native check and the Java check agree except on QDCOUNT: the
      native one reads it unsigned, so it also accepts 32768 questions and
      more, which the Java one rejects as a negative count. */
  lemma NativeAndJavaChecks(packet: seq<byte>)
    requires |packet| >= DNS_HEADER_SIZE
    ensures DnsHeader.IsValidDnsRequest(packet) ==> HeaderAccepts(packet[..DNS_HEADER_SIZE])
    ensures HeaderAccepts(packet[..DNS_HEADER_SIZE]) && BigEndian16(packet[4], packet[5]) < 0x8000 ==>
      DnsHeader.IsValidDnsRequest(packet)
  {
    DnsHeader.ValidDnsRequestMeaning(packet);
  }

  /** A query announcing 0x8000 questions passes the native check and fails
      the Java one. */
  lemma QdcountSignDisagreement()
    ensures var packet: seq<byte> := [0, 0, 1, 0, 0x80, 0, 0, 0, 0, 0, 0, 0];
      HeaderAccepts(packet) && !DnsHeader.IsValidDnsRequest(packet)
  {
    var packet: seq<byte> := [0, 0, 1, 0, 0x80, 0, 0, 0, 0, 0, 0, 0];
    assert packet[..DNS_HEADER_SIZE] == packet;
    assert DnsHeader.MaskQr(packet[2]) == 0 && DnsHeader.MaskZ(packet[3]) == 0;
    DnsHeader.ValidDnsRequestMeaning(packet);
    assert BigEndian16(packet[4], packet[5]) == 0x8000;
  }

  // ---------------------------------------------------------------------
  // QR and RCODE
  // ---------------------------------------------------------------------

  /** dns_get_qr: the QR bit, 0 (query) or 1 (response); masking with
      DNS_QR and shifting right by 7 is dividing the octet by 0x80. */
  function DnsGetQr(data: array<byte>): (qr: int)
    reads data
    requires data.Length >= DNS_HEADER_SIZE
    ensures qr == 0 || qr == 1
    ensures qr == 1 <==> data[2] >= 0x80
  {
    data[2] / 0x80
  }

  /** The octet with DNS_QR OR-ed in. */
  function WithQr(b: byte): (r: byte)
    ensures r >= 0x80 && r % 0x80 == b % 0x80
  {
    if b < 0x80 then b + 0x80 else b
  }

  /** dns_set_qr: marks the message a response, changing nothing else. */
  method DnsSetQr(data: array<byte>)
    requires data.Length >= DNS_HEADER_SIZE
    modifies data
    ensures data[2] == WithQr(old(data[2]))
    ensures forall i | 0 <= i < data.Length && i != 2 :: data[i] == old(data[i])
    ensures DnsGetQr(data) == 1
  {
    data[2] := WithQr(data[2]);
  }

  /** Setting QR twice is setting it once, and the other seven bits of the
      octet (Opcode, AA, TC, RD) survive it. */
  lemma WithQrIdempotent(b: byte)
    ensures WithQr(WithQr(b)) == WithQr(b)
    ensures WithQr(b) - 0x80 == b % 0x80
  {
  }

  /** dns_get_rcode: the low four bits of the fourth octet. */
  function DnsGetRcode(data: array<byte>): (rcode: int)
    reads data
    requires data.Length >= DNS_HEADER_SIZE
    ensures 0 <= rcode < 16
    ensures (data[3] - rcode) % 16 == 0
  {
    data[3] % 16
  }

  /** Bitwise OR of two naturals, bit by bit from the lowest. */
  function BitOr(a: nat, c: nat): (r: nat)
    ensures r >= a && r >= c
    ensures a == 0 ==> r == c
    ensures c == 0 ==> r == a
    decreases a + c
  {
    if a == 0 then c
    else if c == 0 then a
    else 2 * BitOr(a / 2, c / 2) + (if a % 2 == 1 || c % 2 == 1 then 1 else 0)
  }

  function Pow2(n: nat): (p: nat)
    ensures p >= 1
  {
    if n == 0 then 1 else 2 * Pow2(n - 1)
  }

  /** OR-ing two values of n bits gives a value of n bits. */
  lemma {:induction false} BitOrWidth(a: nat, c: nat, n: nat)
    requires a < Pow2(n) && c < Pow2(n)
    ensures BitOr(a, c) < Pow2(n)
    decreases n
  {
    if a != 0 && c != 0 {
      BitOrWidth(a / 2, c / 2, n - 1);
    }
  }

  /** Bit k of x is set. */
  predicate Bit(x: nat, k: nat)
    decreases k
  {
    if k == 0 then x % 2 == 1 else Bit(x / 2, k - 1)
  }

  lemma {:induction false} NoBitOfZero(k: nat)
    ensures !Bit(0, k)
    decreases k
  {
    if k > 0 {
      NoBitOfZero(k - 1);
    }
  }

  /** BitOr is bitwise OR: a bit of the result is set exactly when it is set
      in either operand. */
  lemma {:induction false} BitOrBits(a: nat, c: nat, k: nat)
    ensures Bit(BitOr(a, c), k) <==> Bit(a, k) || Bit(c, k)
    decreases k
  {
    NoBitOfZero(k);
    if a != 0 && c != 0 && k > 0 {
      BitOrBits(a / 2, c / 2, k - 1);
    }
  }

  /** What dns_set_rcode leaves in the fourth octet: codes above 5 are
      ignored; 0 clears RCODE (AND with the complement of DNS_RCODE); any
      other code is OR-ed into RCODE, so bits of the previous code stay. */
  function WithRcode(b: byte, rcode: byte): (r: byte)
  {
    if rcode > 5 then b
    else if rcode == 0 then b - b % 16
    else
      BitOrWidth(b % 16, rcode, 4);
      b - b % 16 + BitOr(b % 16, rcode)
  }

  /** The effect of dns_set_rcode on the header, in terms of RCODE: RA and
      Z are kept; an unknown code changes nothing; 0 clears RCODE; a known
      code is read back by dns_get_rcode when RCODE was clear before, and
      otherwise at least the old and the new bits are set (RcodeKeepsBits
      says which). */
  lemma RcodeAfterSet(b: byte, rcode: byte)
    ensures WithRcode(b, rcode) / 16 == b / 16
    ensures rcode > 5 ==> WithRcode(b, rcode) == b
    ensures rcode == 0 ==> WithRcode(b, rcode) % 16 == 0
    ensures 0 < rcode <= 5 && b % 16 == 0 ==> WithRcode(b, rcode) % 16 == rcode
    ensures 0 < rcode <= 5 ==> WithRcode(b, rcode) % 16 >= rcode && WithRcode(b, rcode) % 16 >= b % 16
  {
    if 0 < rcode <= 5 {
      BitOrWidth(b % 16, rcode, 4);
    }
  }

  /** A known nonzero code is OR-ed into RCODE without clearing it first:
      each of the four RCODE bits is set afterwards exactly when it was set
      before or is set in the new code. */
  lemma RcodeKeepsBits(b: byte, rcode: byte)
    requires 0 < rcode <= 5
    ensures forall k | 0 <= k < 4 :: Bit(WithRcode(b, rcode) % 16, k) <==> Bit(b % 16, k) || Bit(rcode, k)
  {
    var nibble := BitOr(b % 16, rcode);
    BitOrWidth(b % 16, rcode, 4);
    HighAndLow(b / 16, nibble);
    assert WithRcode(b, rcode) == 16 * (b / 16) + nibble;
    forall k | 0 <= k < 4
      ensures Bit(nibble, k) <==> Bit(b % 16, k) || Bit(rcode, k)
    {
      BitOrBits(b % 16, rcode, k);
    }
  }

  lemma HighAndLow(high: nat, low: nat)
    requires low < 16
    ensures (16 * high + low) % 16 == low
  {
  }

  /** dns_set_rcode on the header in place. */
  method DnsSetRcode(data: array<byte>, rcode: byte)
    requires data.Length >= DNS_HEADER_SIZE
    modifies data
    ensures data[3] == WithRcode(old(data[3]), rcode)
    ensures forall i | 0 <= i < data.Length && i != 3 :: data[i] == old(data[i])
  {
    if rcode > 5 {
      return;
    }
    if rcode == 0 {
      data[3] := data[3] - data[3] % 16;
    } else {
      data[3] := WithRcode(data[3], rcode);
    }
  }

  /** Setting a code over an earlier nonzero one does not replace it: after
      codes 1 and then 2 the header carries 3. */
  lemma RcodeAccumulates()
    ensures WithRcode(WithRcode(0, 1), 2) % 16 == 3
  {
    assert BitOr(0, 1) == 1;
    assert BitOr(1, 2) == 2 * BitOr(0, 1) + 1;
  }

  // ---------------------------------------------------------------------
  // Compression pointers
  // ---------------------------------------------------------------------

  /** dns_encode_compressed_name: DNS_COMPRESSED_NAME shifted into the high
      octet, OR-ed with the offset, whose bits all lie in the low octet. The
      result is a pointer to `offset`: its two top bits set and the offset
      in the remaining fourteen. */
  function DnsEncodeCompressedName(offset: byte): (r: int)
    ensures 0 <= r < 0x1_0000
    ensures r / 0x4000 == 3 && r % 0x4000 == offset
  {
    0xC0 * 0x100 + offset
  }

  // ---------------------------------------------------------------------
  // Names
  // ---------------------------------------------------------------------

  const NUL: byte := 0

  /** The number of octets of s from position j up to the next dot or the
      end. */
  function RunLength(s: seq<byte>, j: nat): (n: nat)
    requires j <= |s|
    ensures j + n <= |s|
    decreases |s| - j
  {
    if j == |s| || s[j] == DOT then 0 else 1 + RunLength(s, j + 1)
  }

  /** The run from j stops at the first dot or at the end. */
  lemma {:induction false} RunLengthUpTo(s: seq<byte>, j: nat, k: nat)
    requires j <= k <= |s| && (k == |s| || s[k] == DOT)
    requires forall i | j <= i < k :: s[i] != DOT
    ensures RunLength(s, j) == k - j
    decreases k - j
  {
    if j < k {
      RunLengthUpTo(s, j + 1, k);
    }
  }

  /** Runs inside a suffix are runs of the whole. */
  lemma {:induction false} RunLengthInSuffix(s: seq<byte>, offset: nat, j: nat)
    requires offset <= |s| && j <= |s| - offset
    ensures RunLength(s, offset + j) == RunLength(s[offset..], j)
    decreases |s| - offset - j
  {
    if j < |s| - offset {
      RunLengthInSuffix(s, offset, j + 1);
    }
  }

  /** The length octet of the last label: written only when the uint8_t
      count is nonzero, and otherwise what the buffer held. */
  function LastLengthOctet(count: int, held: byte): byte
  {
    if count % 256 != 0 then count % 256 else held
  }

  /** Octet j of what dns_encode_name leaves for the text s over a buffer
      that held prev. Position 0 and every position after a dot start a
      label and hold its length modulo 256, as the counter is a uint8_t;
      for the last label, whose run reaches the end, only a nonzero count is
      written. The other positions hold the text shifted one place on, and
      the last holds the closing zero. */
  function EncodedOctet(s: seq<byte>, prev: seq<byte>, j: nat): byte
    requires |prev| == |s| + 2 && j < |s| + 2
  {
    if j == |s| + 1 then NUL
    else if j == 0 || s[j - 1] == DOT then
      var n := RunLength(s, j);
      if j + n < |s| then n % 256 else LastLengthOctet(n, prev[j])
    else s[j - 1]
  }

  /** The |s| + 2 octets dns_encode_name covers. An empty name, or one
      ending in a dot, keeps the old octet in the place of the last length. */
  function EncodedName(s: seq<byte>, prev: seq<byte>): (q: seq<byte>)
    requires |prev| == |s| + 2
    ensures |q| == |s| + 2
  {
    seq(|s| + 2, j requires 0 <= j < |s| + 2 => EncodedOctet(s, prev, j))
  }

  /** The labels of a dotted name, in order. */
  function Split(s: seq<byte>): (labels: seq<seq<byte>>)
    ensures |labels| >= 1
    ensures forall i, j | 0 <= i < |labels| && 0 <= j < |labels[i]| :: labels[i][j] != DOT
    decreases |s|
  {
    var d := IndexOf(s, DOT);
    if d < 0 then [s] else [s[..d]] + Split(s[d + 1..])
  }

  /** Labels joined by dots. */
  function Join(labels: seq<seq<byte>>): seq<byte>
    requires |labels| >= 1
  {
    if |labels| == 1 then labels[0] else labels[0] + [DOT] + Join(labels[1..])
  }

  lemma {:induction false} JoinSplit(s: seq<byte>)
    ensures Join(Split(s)) == s
    decreases |s|
  {
    var d := IndexOf(s, DOT);
    if d >= 0 {
      JoinSplit(s[d + 1..]);
      assert s == s[..d] + [DOT] + s[d + 1..];
    }
  }

  /** Every label holds at least one octet and fewer than `bound`. */
  predicate LabelsBelow(labels: seq<seq<byte>>, bound: nat)
    ensures LabelsBelow(labels, bound) && bound < 256 ==> LabelsBelow(labels, 256)
    decreases |labels|, if bound < 256 then 1 else 0
  {
    |labels| == 0 || (1 <= |labels[0]| < bound && LabelsBelow(labels[1..], bound))
  }

  /** A name the wire format can carry: every label 1 to 255 octets. */
  predicate WellFormedName(s: seq<byte>)
  {
    LabelsBelow(Split(s), 256)
  }

  /** Length-prefixed labels closed by the zero-length root label, as in
      section 3.1 of RFC 1035. */
  function LabelEncoding(labels: seq<seq<byte>>): (q: seq<byte>)
    requires LabelsBelow(labels, 256)
  {
    if |labels| == 0 then [NUL] else [|labels[0]|] + labels[0] + LabelEncoding(labels[1..])
  }

  lemma IndexOfIs(s: seq<byte>, b: byte, k: nat)
    requires k < |s| && s[k] == b
    requires forall j | 0 <= j < k :: s[j] != b
    ensures IndexOf(s, b) == k
  {
  }

  /** A label followed by a dot encodes as its length and its octets, then
      the encoding of the rest. */
  lemma EncodeLabelThenRest(l: seq<byte>, rest: seq<byte>, prev: seq<byte>)
    requires forall j | 0 <= j < |l| :: l[j] != DOT
    requires |prev| == |l| + 1 + |rest| + 2
    ensures EncodedName(l + [DOT] + rest, prev) == [|l| % 256] + l + EncodedName(rest, prev[|l| + 1..])
  {
    var s := l + [DOT] + rest;
    var q := EncodedName(s, prev);
    var r := [|l| % 256] + l + EncodedName(rest, prev[|l| + 1..]);
    RunLengthUpTo(s, 0, |l|);
    assert s[|l| + 1..] == rest;
    forall j | 0 <= j < |q|
      ensures q[j] == r[j]
    {
      if 1 <= j <= |l| {
        assert s[j - 1] == l[j - 1];
      } else if j > |l| {
        var j' := j - |l| - 1;
        if j' <= |rest| {
          RunLengthInSuffix(s, |l| + 1, j');
          assert j' > 0 ==> s[j - 1] == rest[j' - 1];
        }
      }
    }
  }

  /** A name without dots encodes as its length, its octets and the
      closing zero. */
  lemma EncodeLastLabel(l: seq<byte>, prev: seq<byte>)
    requires forall j | 0 <= j < |l| :: l[j] != DOT
    requires |prev| == |l| + 2
    ensures EncodedName(l, prev) == [LastLengthOctet(|l|, prev[0])] + l + [NUL]
  {
    RunLengthUpTo(l, 0, |l|);
  }

  /** A well-formed name encodes to its labels in the format of RFC 1035,
      whatever the buffer held before. */
  lemma {:induction false} EncodeWellFormed(s: seq<byte>, prev: seq<byte>)
    requires WellFormedName(s) && |prev| == |s| + 2
    ensures EncodedName(s, prev) == LabelEncoding(Split(s))
    decreases |s|
  {
    var d := IndexOf(s, DOT);
    if d < 0 {
      assert Split(s) == [s];
      EncodeLastLabel(s, prev);
      assert LabelEncoding([s]) == [|s|] + s + [NUL];
    } else {
      var l, rest := s[..d], s[d + 1..];
      assert s == l + [DOT] + rest;
      assert Split(s) == [l] + Split(rest);
      assert Split(s)[1..] == Split(rest);
      assert |l| % 256 == |l|;
      var tail := prev[|l| + 1..];
      EncodeLabelThenRest(l, rest, prev);
      EncodeWellFormed(rest, tail);
      assert LabelEncoding(Split(s)) == [|l|] + l + LabelEncoding(Split(rest));
    }
  }

  /** A name ending in a dot, or the empty name, has its last length octet
      left as the buffer held it. */
  lemma TrailingDotLeavesHole(s: seq<byte>, prev: seq<byte>)
    requires |prev| == |s| + 2
    requires |s| == 0 || s[|s| - 1] == DOT
    ensures EncodedName(s, prev)[|s|] == prev[|s|]
  {
  }

  /** The text dns_get_name reads from the length octet at position p of
      d: labels joined by dots, up to the zero length; None when a label or
      the octet after it lies past the end of d. */
  function DecodeAt(d: seq<byte>, p: nat): (name: Option<seq<byte>>)
    decreases |d| - p
  {
    if p >= |d| then None
    else if d[p] == 0 then Some([])
    else if p + 1 + d[p] >= |d| then None
    else
      var next := p + 1 + d[p];
      match DecodeAt(d, next)
      case None => None
      case Some(t) => Some(d[p + 1..next] + (if d[next] != 0 then [DOT] else []) + t)
  }

  /** Decoding the encoding of labels, wherever in d it sits, gives the
      labels joined by dots. */
  lemma {:induction false} DecodeLabelEncoding(d: seq<byte>, p: nat, labels: seq<seq<byte>>)
    requires |labels| >= 1 && LabelsBelow(labels, 256)
    requires p + |LabelEncoding(labels)| <= |d|
    requires d[p..p + |LabelEncoding(labels)|] == LabelEncoding(labels)
    ensures DecodeAt(d, p) == Some(Join(labels))
    decreases |labels|
  {
    var l := labels[0];
    var next := FirstLabelAt(d, p, labels);
    if |labels| == 1 {
      assert DecodeAt(d, next) == Some([]);
      DecodeLabel(d, p, next, []);
      assert Join(labels) == l + [] + [];
    } else {
      DecodeLabelEncoding(d, next, labels[1..]);
      DecodeLabel(d, p, next, Join(labels[1..]));
    }
  }

  /** Where the encoding of labels sits in d: the first label's length
      octet and octets, then the encoding of the other labels at next. */
  lemma FirstLabelAt(d: seq<byte>, p: nat, labels: seq<seq<byte>>) returns (next: nat)
    requires |labels| >= 1 && LabelsBelow(labels, 256)
    requires p + |LabelEncoding(labels)| <= |d|
    requires d[p..p + |LabelEncoding(labels)|] == LabelEncoding(labels)
    ensures next == p + 1 + |labels[0]| && d[p] == |labels[0]| && d[p + 1..next] == labels[0]
    ensures next + |LabelEncoding(labels[1..])| <= |d|
    ensures d[next..next + |LabelEncoding(labels[1..])|] == LabelEncoding(labels[1..])
    ensures next < |d| && d[next] == LabelEncoding(labels[1..])[0]
  {
    var l := labels[0];
    var e := LabelEncoding(labels);
    var e' := LabelEncoding(labels[1..]);
    next := p + 1 + |l|;
    assert e == [|l|] + l + e';
    assert e[1..1 + |l|] == l && e[1 + |l|..] == e';
    SliceOfSlice(d, p, p + |e|, 1, 1 + |l|);
    SliceOfSlice(d, p, p + |e|, 1 + |l|, |e|);
  }

  lemma SliceOfSlice(d: seq<byte>, p: nat, q: nat, a: nat, b: nat)
    requires p <= q <= |d| && a <= b <= q - p
    ensures d[p..q][a..b] == d[p + a..p + b]
  {
    assert forall i | 0 <= i < b - a :: d[p..q][a..b][i] == d[p + a..p + b][i];
  }

  /** Unfolds the decoder at a label whose successor, at next, decodes to t. */
  lemma DecodeLabel(d: seq<byte>, p: nat, next: nat, t: seq<byte>)
    requires p < |d| && d[p] != 0 && next == p + 1 + d[p] < |d|
    requires DecodeAt(d, next) == Some(t)
    ensures DecodeAt(d, p) == Some(d[p + 1..next] + (if d[next] != 0 then [DOT] else []) + t)
  {
  }

  /** The decoder inverts the encoder on well-formed names. */
  lemma NameRoundTrip(s: seq<byte>, prev: seq<byte>, rest: seq<byte>)
    requires WellFormedName(s) && |prev| == |s| + 2
    ensures DecodeAt(EncodedName(s, prev) + rest, 0) == Some(s)
  {
    var e := LabelEncoding(Split(s));
    EncodeWellFormed(s, prev);
    assert (e + rest)[0..|e|] == e;
    DecodeLabelEncoding(e + rest, 0, Split(s));
    JoinSplit(s);
  }

  /** Counting on in a uint8_t. */
  lemma WrapSucc(a: nat)
    ensures (a % 256 + 1) % 256 == (a + 1) % 256
  {
  }

  /** What dns_encode_name has left in query once it has read the first i
      octets of the text s, with the current label's length octet at
      lengthPtr: every position up to i except lengthPtr holds its final
      octet, and lengthPtr and everything after i still hold what the
      buffer held before. */
  ghost predicate EncodedUpTo(query: array<byte>, s: seq<byte>, prev: seq<byte>, i: nat, lengthPtr: nat)
    reads query
  {
    |prev| == |s| + 2 <= query.Length && lengthPtr <= i <= |s|
    && (lengthPtr == 0 || s[lengthPtr - 1] == DOT)
    && (forall j | lengthPtr <= j < i :: s[j] != DOT)
    && (forall j | 0 <= j <= i && j != lengthPtr :: query[j] == EncodedOctet(s, prev, j))
    && query[lengthPtr] == prev[lengthPtr]
    && (forall j | i < j < |prev| :: query[j] == prev[j])
  }

  /** The copy of one octet of a label: `*query++ = *name++`. */
  method CopyNameOctet(query: array<byte>, ghost s: seq<byte>, ghost prev: seq<byte>, i: nat, lengthPtr: nat, c: byte, n: byte)
    returns (n': byte)
    requires EncodedUpTo(query, s, prev, i, lengthPtr) && i < |s| && s[i] == c != DOT
    requires n == (i - lengthPtr) % 256
    modifies query
    ensures EncodedUpTo(query, s, prev, i + 1, lengthPtr)
    ensures n' == (i + 1 - lengthPtr) % 256
    ensures forall j | 0 <= j < query.Length && j != i + 1 :: query[j] == old(query[j])
  {
    query[i + 1] := c;
    WrapSucc(i - lengthPtr);
    n' := (n + 1) % 256;
  }

  /** The end of a label at a dot: its count goes to its length octet and
      the next label's length octet is the one the dot stands over. */
  method CloseLabel(query: array<byte>, ghost s: seq<byte>, ghost prev: seq<byte>, i: nat, lengthPtr: nat, n: byte)
    requires EncodedUpTo(query, s, prev, i, lengthPtr) && i < |s| && s[i] == DOT
    requires n == (i - lengthPtr) % 256
    modifies query
    ensures EncodedUpTo(query, s, prev, i + 1, i + 1)
    ensures forall j | 0 <= j < query.Length && j != lengthPtr :: query[j] == old(query[j])
  {
    RunLengthUpTo(s, lengthPtr, i);
    query[lengthPtr] := n;
  }

  /** The end of the text: the last label's count, when nonzero, and the
      closing zero. */
  method CloseName(query: array<byte>, ghost s: seq<byte>, ghost prev: seq<byte>, lengthPtr: nat, n: byte, q: nat)
    requires EncodedUpTo(query, s, prev, |s|, lengthPtr) && q == |s| + 1
    requires n == (|s| - lengthPtr) % 256
    modifies query
    ensures query[..|s| + 2] == EncodedName(s, prev)
    ensures forall j | |s| + 2 <= j < query.Length :: query[j] == old(query[j])
  {
    RunLengthUpTo(s, lengthPtr, |s|);
    if n > 0 {
      query[lengthPtr] := n;
    }
    query[q] := NUL;
    assert forall j | 0 <= j < |s| + 2 :: query[j] == EncodedOctet(s, prev, j);
  }

  /** dns_encode_name: encodes the NUL-terminated name into query. The
      name is only read, so it is a value here. */
  method DnsEncodeName(name: seq<byte>, query: array<byte>)
    requires IndexOf(name, NUL) >= 0
    requires query.Length >= IndexOf(name, NUL) + 2
    modifies query
    ensures var len := IndexOf(name, NUL);
      query[..len + 2] == EncodedName(name[..len], old(query[..len + 2]))
    ensures var len := IndexOf(name, NUL);
      query[len + 2..] == old(query[len + 2..])
  {
    ghost var len := IndexOf(name, NUL);
    ghost var s := name[..len];
    ghost var prev := query[..len + 2];
    var n: byte := 0;
    var lengthPtr := 0;
    var q := 1;
    var i := 0;
    while name[i] != NUL
      invariant 0 <= i <= len && q == i + 1
      invariant EncodedUpTo(query, s, prev, i, lengthPtr)
      invariant n == (i - lengthPtr) % 256
      invariant forall j | len + 2 <= j < query.Length :: query[j] == old(query[j])
      decreases len - i
    {
      if name[i] == DOT {
        CloseLabel(query, s, prev, i, lengthPtr, n);
        lengthPtr := q;
        q := q + 1;
        n := 0;
        i := i + 1;
        continue;
      }
      n := CopyNameOctet(query, s, prev, i, lengthPtr, name[i], n);
      q := q + 1;
      i := i + 1;
    }
    CloseName(query, s, prev, lengthPtr, n, q);
    assert query[len + 2..] == old(query[len + 2..]);
  }

  /** One step of the decoder: a nonzero length octet, that many octets,
      then a dot when another label follows; returns where the next length
      octet sits and what decodes from there. */
  lemma DecodeStep(d: seq<byte>, p: nat, rem: seq<byte>) returns (next: nat, tail: seq<byte>)
    requires DecodeAt(d, p) == Some(rem) && p < |d| && d[p] != 0
    ensures next == p + 1 + d[p] && next < |d| && DecodeAt(d, next) == Some(tail)
    ensures rem == d[p + 1..next] + (if d[next] != 0 then [DOT] else []) + tail
  {
    next := p + 1 + d[p];
    tail := DecodeAt(d, next).value;
  }

  /** The inner loop of dns_get_name: copies one label's octets. */
  method CopyLabel(name: array<byte>, data: seq<byte>, k: nat, d: nat, n: nat)
    requires d + n <= |data| && k + n <= name.Length
    modifies name
    ensures name[..k + n] == old(name[..k]) + data[d..d + n]
    ensures forall j | k + n <= j < name.Length :: name[j] == old(name[j])
  {
    var i := 0;
    while i < n
      invariant 0 <= i <= n
      invariant name[..k + i] == old(name[..k]) + data[d..d + i]
      invariant forall j | k + i <= j < name.Length :: name[j] == old(name[j])
    {
      name[k + i] := data[d + i];
      i := i + 1;
    }
  }

  /** Moves one step of decoded text from what is left to what is copied. */
  lemma Regroup(text: seq<byte>, out: seq<byte>, rem: seq<byte>, step: seq<byte>, tail: seq<byte>)
    requires text == out + rem && rem == step + tail
    ensures text == (out + step) + tail
  {
  }

  /** One pass of dns_get_name's outer loop: the label's octets, then the
      next length octet and, when it is not the root, a dot. */
  method NextLabel(name: array<byte>, data: seq<byte>, k: nat, d: nat, n: nat) returns (k': nat, d': nat, n': byte)
    requires d + n < |data|
    requires k + n + (if data[d + n] != 0 then 1 else 0) <= name.Length
    modifies name
    ensures d' == d + n + 1 && n' == data[d + n] && k' == k + n + (if n' != 0 then 1 else 0)
    ensures name[..k'] == old(name[..k]) + (data[d..d + n] + (if n' != 0 then [DOT] else []))
    ensures forall j | k' <= j < name.Length :: name[j] == old(name[j])
  {
    CopyLabel(name, data, k, d, n);
    k' := k + n;
    d' := d + n;
    n' := data[d'];
    d' := d' + 1;
    if n' != 0 {
      name[k'] := DOT;
      k' := k' + 1;
    }
  }

  /** dns_get_name: copies the dotted text of the encoded name at the start
      of data into name and closes it with a NUL. The data buffer is only
      read, so it is a value here. */
  method DnsGetName(name: array<byte>, data: seq<byte>)
    requires DecodeAt(data, 0).Some?
    requires name.Length > |DecodeAt(data, 0).value|
    modifies name
    ensures var text := DecodeAt(data, 0).value;
      name[..|text| + 1] == text + [NUL]
    ensures var text := DecodeAt(data, 0).value;
      name[|text| + 1..] == old(name[|text| + 1..])
  {
    ghost var text := DecodeAt(data, 0).value;
    ghost var rem := text;
    ghost var p: nat := 0;
    var d := 0;
    var k: nat := 0;
    var n := data[d];
    d := d + 1;
    while n != 0
      invariant d == p + 1 && p < |data| && n == data[p]
      invariant DecodeAt(data, p) == Some(rem)
      invariant k + |rem| == |text| < name.Length && text == name[..k] + rem
      invariant forall j | k <= j < name.Length :: name[j] == old(name[j])
      decreases |data| - d
    {
      var next, tail := DecodeStep(data, p, rem);
      Regroup(text, name[..k], rem, data[d..next] + (if data[next] != 0 then [DOT] else []), tail);
      k, d, n := NextLabel(name, data, k, d, n);
      p, rem := next, tail;
    }
    name[k] := NUL;
    assert name[..k + 1] == text + [NUL];
  }
}
