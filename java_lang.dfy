/** Value-level stand-ins for the pieces of the Java runtime that the relay's
    protocol code leans on: octets and Java's signed views of them, the way a
    Java method returns a reference (a value, null, or an exception), decimal
    text and Integer.parseInt, and the few String queries the code uses.
    Text is kept as the bytes it is made of; every literal the code uses is
    ASCII, for which Java's String/byte conversions are the identity. */
module JavaLang {

  /** An octet, as an unsigned value. */
  type byte = b: int | 0 <= b < 256

  /** The exceptions the modelled code can raise. */
  datatype Exception =
    | IOException
    | EOFException
    | NegativeArraySize
    | IllegalArgument
    | BufferUnderflow
    | BufferOverflow
    | NumberFormat
    | StringIndexOutOfBounds
    | NullPointer

  /** What a Java method that returns a reference hands back. */
  datatype Result<+T> = Value(value: T) | Null | Throws(exception: Exception)

  datatype Option<+T> = None | Some(value: T)

  const INT_MAX: int := 0x7FFF_FFFF
  const INT_MIN: int := -0x8000_0000

  /** The value InputStream.read() returns when the stream holds `s` and `i`
      bytes have been asked for before: the next byte, or -1 at end of stream. */
  function ReadAt(s: seq<byte>, i: nat): (r: int)
    ensures -1 <= r < 256
    ensures r == -1 <==> i >= |s|
  {
    if i < |s| then s[i] else -1
  }

  /** How many bytes `k` one-byte reads really consume from a stream holding `s`. */
  function Used(s: seq<byte>, k: nat): (n: nat)
    ensures n <= |s| && n <= k
    ensures n == k || n == |s|
  {
    if k <= |s| then k else |s|
  }

  /** Java's `(short)` narrowing of a 16-bit unsigned value. */
  function ToShort(u: int): int
    requires 0 <= u < 0x1_0000
  {
    if u < 0x8000 then u else u - 0x1_0000
  }

  /** Java's `byte` view of an octet (two's complement). */
  function SignedByte(b: byte): int
  {
    if b < 128 then b else b - 256
  }

  /** A 16-bit value from two octets in network (big-endian) order. */
  function BigEndian16(hi: byte, lo: byte): int
  {
    hi * 256 + lo
  }

  /** The two octets of the low 16 bits of `v`, high first (DataOutputStream.writeShort). */
  function ShortBytes(v: int): (r: seq<byte>)
    ensures |r| == 2
    ensures 0 <= v < 0x1_0000 ==> BigEndian16(r[0], r[1]) == v
  {
    [(v / 256) % 256, v % 256]
  }

  /** The bytes of an ASCII string literal. */
  function Ascii(s: string): (r: seq<byte>)
    requires forall i | 0 <= i < |s| :: s[i] as int < 128
    ensures |r| == |s|
  {
    seq(|s|, i requires 0 <= i < |s| => s[i] as int)
  }

  const COLON: byte := 58
  const DOT: byte := 46
  const CR: byte := 13
  const LF: byte := 10

  predicate IsDigit(b: byte)
  {
    48 <= b <= 57
  }

  /** Integer.toString of a non-negative int, as ASCII digits. */
  function Decimal(n: nat): (d: seq<byte>)
    ensures |d| >= 1 && IsDigit(d[0])
    ensures forall i | 0 <= i < |d| :: IsDigit(d[i])
    decreases n
  {
    if n < 10 then [48 + n] else Decimal(n / 10) + [48 + n % 10]
  }

  predicate AllDigits(d: seq<byte>)
  {
    forall i | 0 <= i < |d| :: IsDigit(d[i])
  }

  /** The value of a string of decimal digits, most significant first. */
  function DigitsValue(d: seq<byte>): nat
    requires forall i | 0 <= i < |d| :: IsDigit(d[i])
  {
    if d == [] then 0
    else
      assert IsDigit(d[|d| - 1]);
      DigitsValue(d[..|d| - 1]) * 10 + (d[|d| - 1] - 48)
  }

  /** Integer.parseInt(s) in radix 10: an optional sign, at least one digit,
      and a value in int range; None stands for NumberFormatException. */
  function ParseInt(s: seq<byte>): (r: Option<int>)
    ensures r.Some? ==> INT_MIN <= r.value <= INT_MAX
  {
    if s == [] then None
    else
      var negative := s[0] == 45;
      var digits := if s[0] == 45 || s[0] == 43 then s[1..] else s;
      if digits == [] || !AllDigits(digits) then None
      else
        var v: int := DigitsValue(digits);
        if negative then (if -v < INT_MIN then None else Some(-v))
        else (if v > INT_MAX then None else Some(v))
  }

  lemma {:induction false} DigitsValueOfDecimal(n: nat)
    ensures DigitsValue(Decimal(n)) == n
    decreases n
  {
    if n >= 10 {
      var d := Decimal(n);
      assert d[..|d| - 1] == Decimal(n / 10);
      DigitsValueOfDecimal(n / 10);
    }
  }

  /** Integer.parseInt reads back what Integer.toString wrote. */
  lemma ParseIntOfDecimal(n: nat)
    requires n <= INT_MAX
    ensures ParseInt(Decimal(n)) == Some(n)
  {
    DigitsValueOfDecimal(n);
  }

  /** String.indexOf(b): the first position holding `b`, or -1. */
  function IndexOf(s: seq<byte>, b: byte): (i: int)
    ensures -1 <= i < |s|
    ensures i >= 0 ==> s[i] == b && forall j | 0 <= j < i :: s[j] != b
    ensures i == -1 ==> forall j | 0 <= j < |s| :: s[j] != b
  {
    if s == [] then -1
    else if s[0] == b then 0
    else var k := IndexOf(s[1..], b); if k == -1 then -1 else k + 1
  }

  /** String.lastIndexOf(b): the last position holding `b`, or -1. */
  function LastIndexOf(s: seq<byte>, b: byte): (i: int)
    ensures -1 <= i < |s|
    ensures i >= 0 ==> s[i] == b && forall j | i < j < |s| :: s[j] != b
    ensures i == -1 ==> forall j | 0 <= j < |s| :: s[j] != b
  {
    if s == [] then -1
    else if s[|s| - 1] == b then |s| - 1
    else LastIndexOf(s[..|s| - 1], b)
  }

  /** String.endsWith. */
  predicate EndsWith(s: seq<int>, suffix: seq<int>)
  {
    |suffix| <= |s| && s[|s| - |suffix|..] == suffix
  }

  /** String.contains. */
  predicate Contains(s: seq<byte>, t: seq<byte>)
    decreases |s|
  {
    if |t| > |s| then false
    else s[..|t|] == t || (s != [] && Contains(s[1..], t))
  }

  /** A string contains what it holds at any position. */
  lemma {:induction false} ContainsAt(s: seq<byte>, t: seq<byte>, i: nat)
    requires i + |t| <= |s| && s[i..i + |t|] == t
    ensures Contains(s, t)
    decreases i
  {
    if i > 0 {
      assert s[1..][i - 1..i - 1 + |t|] == t;
      ContainsAt(s[1..], t, i - 1);
    }
  }

  /** String.contains of a single character agrees with String.indexOf. */
  lemma {:induction false} ContainsByte(s: seq<byte>, b: byte)
    ensures Contains(s, [b]) <==> IndexOf(s, b) >= 0
    decreases |s|
  {
    if s != [] {
      ContainsByte(s[1..], b);
    }
  }
}
