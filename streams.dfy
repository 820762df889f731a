/** Stand-ins for java.io streams and java.net sockets. An input stream holds
    every byte its peer will ever send and how many have been consumed; a bulk
    read delivers whatever has arrived, at most `chunk` bytes, so the source's
    loops that re-read until a field is complete really do loop. An output
    stream records what was written and fails (IOException) once closed. */
module Streams {
  import opened JavaLang

  /** What is left of `s` after `k` bytes have been asked for. */
  function Drop(s: seq<byte>, k: nat): (r: seq<byte>)
    ensures |r| == |s| - Used(s, k)
  {
    if k <= |s| then s[k..] else []
  }

  /** Where the first CR or LF of `s` is, or |s| if it has none. */
  function LineEnd(s: seq<byte>): (i: nat)
    ensures i <= |s|
    ensures forall j | 0 <= j < i :: s[j] != CR && s[j] != LF
    ensures i < |s| ==> s[i] == CR || s[i] == LF
  {
    if s == [] || s[0] == CR || s[0] == LF then 0 else 1 + LineEnd(s[1..])
  }

  /** DataInputStream.readLine on a stream holding `s`: the line (None for
      null at end of stream) and how many bytes the call consumes. A line
      ends at LF, at CR, at CR LF, or at end of stream; a byte after a lone CR
      is pushed back, not consumed. */
  function ReadLineOf(s: seq<byte>): (r: (Option<seq<byte>>, nat))
    ensures r.1 <= |s|
    ensures r.0.None? <==> s == []
    ensures r.0.Some? ==> r.1 > 0 && forall j | 0 <= j < |r.0.value| :: r.0.value[j] != CR && r.0.value[j] != LF
  {
    if s == [] then (None, 0)
    else
      var i := LineEnd(s);
      if i == |s| then (Some(s), |s|)
      else if s[i] == CR && i + 1 < |s| && s[i + 1] == LF then (Some(s[..i]), i + 2)
      else (Some(s[..i]), i + 1)
  }

  const CRLF: seq<byte> := [13, 10]

  predicate NoLineBreak(s: seq<byte>)
  {
    forall i | 0 <= i < |s| :: s[i] != CR && s[i] != LF
  }

  /** The lines of `s` as DataInputStream.readLine returns them one after another. */
  function LinesOf(s: seq<byte>): seq<seq<byte>>
    decreases |s|
  {
    if s == [] then []
    else
      var r := ReadLineOf(s);
      [r.0.value] + LinesOf(s[r.1..])
  }

  lemma ReadLineOfCrLf(l: seq<byte>, rest: seq<byte>)
    requires NoLineBreak(l)
    ensures ReadLineOf(l + CRLF + rest) == (Some(l), |l| + 2)
    ensures (l + CRLF + rest)[|l| + 2..] == rest
  {
    var s := l + CRLF + rest;
    LineEndAt(s, |l|);
    assert s[|l|] == CR && s[|l| + 1] == LF;
    assert s[..|l|] == l;
  }

  lemma ReadLineOfLf(l: seq<byte>, rest: seq<byte>)
    requires NoLineBreak(l)
    ensures ReadLineOf(l + [LF] + rest) == (Some(l), |l| + 1)
    ensures (l + [LF] + rest)[|l| + 1..] == rest
  {
    var s := l + [LF] + rest;
    LineEndAt(s, |l|);
    assert s[..|l|] == l;
  }

  /** A line ended by LF is the first of the lines. */
  lemma LinesOfLf(l: seq<byte>, rest: seq<byte>)
    requires NoLineBreak(l)
    ensures LinesOf(l + [LF] + rest) == [l] + LinesOf(rest)
  {
    ReadLineOfLf(l, rest);
  }

  lemma LinesOfCrLf(l: seq<byte>, rest: seq<byte>)
    requires NoLineBreak(l)
    ensures LinesOf(l + CRLF + rest) == [l] + LinesOf(rest)
  {
    ReadLineOfCrLf(l, rest);
  }

  /** A CR LF on its own is one empty line. */
  lemma LinesOfBlank()
    ensures LinesOf(CRLF) == [[]]
  {
    LinesOfCrLf([], []);
    assert [] + CRLF + [] == CRLF;
  }

  /** The bytes of a text holding neither CR nor LF. */
  lemma AsciiNoLineBreak(s: string)
    requires forall i | 0 <= i < |s| :: s[i] as int < 128 && s[i] != '\r' && s[i] != '\n'
    ensures NoLineBreak(Ascii(s))
  {
  }

  class InStream {
    const data: seq<byte>
    const chunk: nat
    var pos: nat

    ghost predicate Valid()
      reads this
    {
      pos <= |data| && chunk > 0
    }

    /** The bytes not yet consumed. */
    function Remaining(): seq<byte>
      reads this
      requires Valid()
    {
      data[pos..]
    }

    constructor (data: seq<byte>, chunk: nat)
      requires chunk > 0
      ensures Valid() && this.data == data && this.chunk == chunk && Remaining() == data
    {
      this.data := data;
      this.chunk := chunk;
      pos := 0;
    }

    /** InputStream.read(): the next byte, or -1 at end of stream. */
    method Read() returns (r: int)
      requires Valid()
      modifies this
      ensures Valid()
      ensures r == ReadAt(old(Remaining()), 0)
      ensures Remaining() == Drop(old(Remaining()), 1)
    {
      if pos < |data| {
        r := data[pos];
        pos := pos + 1;
      } else {
        r := -1;
      }
    }

    /** PushbackInputStream.unread of the byte just read. */
    method Unread()
      requires Valid() && pos > 0
      modifies this
      ensures Valid() && pos == old(pos) - 1
    {
      pos := pos - 1;
    }

    /** InputStream.read(buf, off, len) with len > 0: -1 at end of stream,
        otherwise some 1..len bytes, stored at buf[off..]. */
    method ReadInto(buf: array<byte>, off: nat, len: nat) returns (n: int)
      requires Valid() && 0 < len && off + len <= buf.Length
      modifies this, buf
      ensures Valid()
      ensures old(pos) == |data| ==> n == -1 && pos == old(pos) && buf[..] == old(buf[..])
      ensures old(pos) < |data| ==>
        && 1 <= n <= len && pos == old(pos) + n
        && buf[off..off + n] == data[old(pos)..pos]
        && (forall i | 0 <= i < buf.Length && !(off <= i < off + n) :: buf[i] == old(buf[i]))
    {
      if pos == |data| {
        return -1;
      }
      n := len;
      if chunk < n { n := chunk; }
      if |data| - pos < n { n := |data| - pos; }
      forall i | off <= i < off + n {
        buf[i] := data[pos + i - off];
      }
      ghost var copied := buf[off..off + n];
      assert forall k | 0 <= k < n :: copied[k] == data[pos..pos + n][k];
      assert copied == data[pos..pos + n];
      pos := pos + n;
    }

    /** InputStream.read(buf): -1 at end of stream, otherwise some
        1..buf.Length bytes, stored at the front of `buf`. */
    method ReadBuffer(buf: array<byte>) returns (n: int)
      requires Valid() && buf.Length > 0
      modifies this, buf
      ensures Valid()
      ensures old(pos) == |data| ==> n == -1 && pos == old(pos)
      ensures old(pos) < |data| ==> 1 <= n <= buf.Length && pos == old(pos) + n && buf[..n] == data[old(pos)..pos]
    {
      if pos == |data| {
        return -1;
      }
      n := buf.Length;
      if chunk < n { n := chunk; }
      if |data| - pos < n { n := |data| - pos; }
      forall i | 0 <= i < n {
        buf[i] := data[pos + i];
      }
      assert forall k | 0 <= k < n :: buf[..n][k] == buf[k] == data[pos..pos + n][k];
      assert buf[..n] == data[pos..pos + n];
      pos := pos + n;
    }

    /** DataInputStream.readFully(buf): fills `buf`, or stops at end of stream
        with the bytes that did arrive at its front (EOFException). */
    method ReadFully(buf: array<byte>) returns (ok: bool)
      requires Valid()
      modifies this, buf
      ensures Valid()
      ensures ok <==> |old(Remaining())| >= buf.Length
      ensures var k := Used(old(Remaining()), buf.Length);
        && buf[..k] == old(Remaining())[..k]
        && buf[k..] == old(buf[k..])
        && Remaining() == old(Remaining())[k..]
    {
      ghost var start := pos;
      var n := 0;
      while n < buf.Length
        invariant Valid() && 0 <= n <= buf.Length && pos == start + n
        invariant buf[..n] == data[start..pos] && buf[n..] == old(buf[n..])
      {
        var count := ReadInto(buf, n, buf.Length - n);
        if count < 0 {
          assert data[start..] == data[start..pos];
          return false;
        }
        assert buf[..n + count] == buf[..n] + buf[n..n + count];
        assert data[start..pos] == data[start..start + n] + data[start + n..pos];
        n := n + count;
      }
      return true;
    }

    /** DataInputStream.readShort(): two bytes, big-endian, as a Java short;
        EOFException (ok false) if the stream ends first. */
    method ReadShort() returns (ok: bool, v: int)
      requires Valid()
      modifies this
      ensures Valid()
      ensures ok <==> |old(Remaining())| >= 2
      ensures ok ==> v == ToShort(BigEndian16(old(Remaining())[0], old(Remaining())[1]))
      ensures Remaining() == Drop(old(Remaining()), 2)
    {
      var ch1 := Read();
      var ch2 := Read();
      if ch1 < 0 || ch2 < 0 {
        return false, 0;
      }
      return true, ToShort(BigEndian16(ch1, ch2));
    }

    /** DataInputStream.readLine(). */
    method ReadLine() returns (line: Option<seq<byte>>)
      requires Valid()
      modifies this
      ensures Valid()
      ensures line == ReadLineOf(old(Remaining())).0
      ensures Remaining() == old(Remaining())[ReadLineOf(old(Remaining())).1..]
    {
      ghost var rem := Remaining();
      var buf: seq<byte> := [];
      var c := Read();
      while c != -1 && c != LF as int && c != CR as int
        invariant Valid()
        invariant |buf| <= |rem| && c == ReadAt(rem, |buf|) && buf == rem[..|buf|]
        invariant forall j | 0 <= j < |buf| :: rem[j] != CR && rem[j] != LF
        invariant Remaining() == Drop(rem, |buf| + 1)
        decreases |rem| - |buf|
      {
        buf := buf + [c];
        c := Read();
      }
      LineEndAt(rem, |buf|);
      if c == -1 {
        assert Remaining() == [] && buf == rem;
        if buf == [] {
          return None;
        }
      } else if c == LF as int {
        assert Remaining() == rem[|buf| + 1..];
      } else {
        ghost var before := pos;
        var c2 := Read();
        if c2 != LF as int && c2 != -1 {
          Unread();
          assert pos == before;
        }
      }
      return Some(buf);
    }
  }

  /** LineEnd is the first CR or LF. */
  lemma {:induction false} LineEndAt(s: seq<byte>, i: nat)
    requires i <= |s|
    requires forall j | 0 <= j < i :: s[j] != CR && s[j] != LF
    requires i < |s| ==> s[i] == CR || s[i] == LF
    ensures LineEnd(s) == i
  {
    if i > 0 {
      LineEndAt(s[1..], i - 1);
    }
  }

  class OutStream {
    var written: seq<byte>
    var closed: bool

    constructor ()
      ensures written == [] && !closed
    {
      written := [];
      closed := false;
    }

    /** OutputStream.write: appends, or throws IOException (ok false) once closed. */
    method Write(bytes: seq<byte>) returns (ok: bool)
      modifies this
      ensures ok == !old(closed) && closed == old(closed)
      ensures written == if ok then old(written) + bytes else old(written)
    {
      ok := !closed;
      if ok {
        written := written + bytes;
      }
    }

    /** OutputStream.close (closing twice is harmless). */
    method Close()
      modifies this
      ensures closed && written == old(written)
    {
      closed := true;
    }
  }

  /** A connected socket: its two streams and whether it was closed. */
  class Socket {
    const input: InStream
    const output: OutStream
    var closed: bool

    constructor (input: InStream, output: OutStream)
      ensures this.input == input && this.output == output && !closed
    {
      this.input := input;
      this.output := output;
      closed := false;
    }

    /** Socket.close, which also closes the socket's output stream. */
    method Close()
      modifies this, output
      ensures closed && output.closed && output.written == old(output.written)
    {
      closed := true;
      output.Close();
    }
  }
}
