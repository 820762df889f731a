/** The copy loop that keeps bytes flowing in one direction of a relayed
    connection. The SOCKS server's download thread and the HTTPS forwarder's
    upload thread run the same loop: read up to 16 KiB, write what was read,
    and at end of stream close the output stream and then the socket. */
module Relay {
  import opened JavaLang
  import opened Streams

  /** The size of each copy buffer (16 KiB). */
  const BUFFER_SIZE: nat := 16384

  /** Copies everything left in `from` to `socket`'s output, in order and
      unchanged, then closes that output and the socket. An IOException from a
      write (the output was already closed) ends the loop with nothing closed. */
  method CopyUntilEnd(from: InStream, socket: Socket)
    requires from.Valid()
    modifies from, socket, socket.output
    ensures from.Valid()
    ensures !old(socket.output.closed) ==>
      && socket.output.written == old(socket.output.written) + old(from.Remaining())
      && from.Remaining() == []
      && socket.output.closed && socket.closed
    ensures old(socket.output.closed) ==>
      && socket.output.written == old(socket.output.written)
      && socket.output.closed
      && socket.closed == (old(socket.closed) || old(from.Remaining()) == [])
  {
    var reachedEnd := Pump(from, socket.output);
    if reachedEnd {
      socket.output.Close();
      socket.Close();
    }
  }

  /** The loop itself: true when it stopped at end of stream, false when a
      write failed. */
  method Pump(from: InStream, out: OutStream) returns (reachedEnd: bool)
    requires from.Valid()
    modifies from, out
    ensures from.Valid() && out.closed == old(out.closed)
    ensures reachedEnd <==> !old(out.closed) || old(from.Remaining()) == []
    ensures reachedEnd ==> out.written == old(out.written) + old(from.Remaining()) && from.Remaining() == []
    ensures !reachedEnd ==> out.written == old(out.written)
  {
    ghost var start := from.pos;
    ghost var mark := start;
    var buffer := new byte[BUFFER_SIZE];
    var n := from.ReadBuffer(buffer);
    while n > -1
      invariant from.Valid() && out.closed == old(out.closed) && start <= mark <= from.pos && n >= -1
      invariant out.written == old(out.written) + from.data[start..mark]
      invariant n == -1 ==> mark == from.pos == |from.data|
      invariant n > -1 ==> 1 <= n <= buffer.Length && from.pos == mark + n && buffer[..n] == from.data[mark..from.pos]
      invariant old(out.closed) ==> mark == start
      decreases |from.data| - from.pos, n + 1
    {
      var ok := out.Write(buffer[..n]);
      if !ok {
        return false;
      }
      SliceJoin(from.data, start, mark, from.pos);
      mark := from.pos;
      n := from.ReadBuffer(buffer);
    }
    assert from.data[start..] == from.data[start..mark];
    return true;
  }

  /** Two adjacent slices make one. */
  lemma SliceJoin(d: seq<byte>, a: nat, b: nat, c: nat)
    requires a <= b <= c <= |d|
    ensures d[a..b] + d[b..c] == d[a..c]
  {
  }
}
