/** The connection handler's socket side (`connectionhandler.cpp`, plus the echo path
    `processMessages` of `reactor.cpp`). The results of `recv` and `send` are an input
    script: the byte chunks or byte counts the kernel delivers, then how the draining
    loop ended. */
module Connection {
  import opened Common
  import opened Broker
  import opened Framing

  /** `BUFFER_SIZE`; each `recv` asks for at most `BUFFER_SIZE - 1` bytes. */
  const BufferSize: nat := 64
  const MaxChunk: nat := BufferSize - 1
  /** Unparsed bytes beyond which a connection is treated as flooding. */
  const FloodLimit: nat := 10240
  /** The largest receive buffer a read can leave: the limit plus one more chunk. */
  const MaxRecvBuffer: nat := FloodLimit + MaxChunk

  /** A connection's state: the unparsed input and the output still to send. */
  datatype Conn = Conn(recv: seq<byte>, send: seq<byte>)

  // ---------------------------------------------------------------------------
  // Reading

  /** How the `recv` loop ended: a zero-length read, EAGAIN/EWOULDBLOCK, or another
      error. */
  datatype RecvEnd = PeerShutdown | WouldBlock | RecvFailed

  /** The successive positive `recv` results, then the result that ended the loop. */
  datatype RecvScript = RecvScript(chunks: seq<seq<byte>>, end: RecvEnd)

  /** What `recv(fd, tmp, BUFFER_SIZE - 1, 0)` can deliver when it returns a positive count. */
  predicate ValidChunks(chunks: seq<seq<byte>>)
  {
    forall i :: 0 <= i < |chunks| ==> 0 < |chunks[i]| <= MaxChunk
  }

  datatype ReadOutcome =
    | Flooded                                  // over the limit: removed and closed, unparsed
    | Dropped                                  // shutdown or hard error: removed and closed, unparsed
    | Framed(conn: Conn, effects: seq<Effect>) // drained and run through the discard codec

  /** Some chunk arrived while the buffer already held more than the limit. */
  ghost predicate Floods(recv: seq<byte>, chunks: seq<seq<byte>>)
  {
    exists k :: 0 <= k < |chunks| && |recv + Flatten(chunks[..k])| > FloodLimit
  }

  /** `ConnectionHandler::handleRead`: drain the socket into the receive buffer, checking
      the flood limit before each append; close on shutdown or a hard error; otherwise
      hand the buffer to `mqttProcessMessages`. */
  method HandleRead(c: Conn, fd: int, script: RecvScript, hasBroker: bool) returns (o: ReadOutcome)
    requires ValidChunks(script.chunks)
    ensures o.Flooded? <==> Floods(c.recv, script.chunks)
    ensures o.Dropped? <==> !Floods(c.recv, script.chunks) && script.end != WouldBlock
    ensures o.Framed? ==>
              var d := Discard(c.recv + Flatten(script.chunks), fd, hasBroker);
              o.conn == Conn(d.recv, c.send) && o.effects == d.effects
    ensures o.Framed? ==> |o.conn.recv| <= (if |script.chunks| == 0 then |c.recv| else MaxRecvBuffer)
  {
    var chunks := script.chunks;
    var buf := c.recv;
    var i := 0;
    while i < |chunks|
      invariant 0 <= i <= |chunks|
      invariant buf == c.recv + Flatten(chunks[..i])
      invariant forall k :: 0 <= k < i ==> |c.recv + Flatten(chunks[..k])| <= FloodLimit
      invariant i > 0 ==> |buf| <= MaxRecvBuffer
    {
      if |buf| > FloodLimit {
        assert |c.recv + Flatten(chunks[..i])| > FloodLimit;
        return Flooded;
      }
      FlattenAppend(chunks[..i], chunks[i]);
      assert chunks[..i + 1] == chunks[..i] + [chunks[i]];
      buf := buf + chunks[i];
      i := i + 1;
    }
    assert chunks[..i] == chunks;
    if script.end != WouldBlock {
      return Dropped;
    }
    var d := Discard(buf, fd, hasBroker);
    o := Framed(Conn(d.recv, c.send), d.effects);
  }

  /** Flood bound: starting within the bound, a read that keeps the connection leaves at
      most 10240 + 63 = 10303 unparsed bytes. */
  method ReadKeepsBound(c: Conn, fd: int, script: RecvScript, hasBroker: bool) returns (o: ReadOutcome)
    requires ValidChunks(script.chunks) && |c.recv| <= MaxRecvBuffer
    ensures o.Framed? ==> |o.conn.recv| <= MaxRecvBuffer
  {
    o := HandleRead(c, fd, script, hasBroker);
  }

  // ---------------------------------------------------------------------------
  // Writing

  /** How the `send` loop ended when the buffer was not emptied: -1 with EAGAIN, a zero
      return, or -1 with another error. */
  datatype SendEnd = SendWouldBlock | SendZero | SendFailed

  /** The successive positive counts the kernel would accept, then the ending result. */
  datatype SendScript = SendScript(accepted: seq<nat>, end: SendEnd)

  predicate ValidSends(accepted: seq<nat>)
  {
    forall i :: 0 <= i < |accepted| ==> accepted[i] > 0
  }

  /** The interest the handler asks for afterwards, or closing the connection. */
  datatype WriteNext = WantIn | WantInOut | CloseConn

  datatype WriteOutcome = WriteOutcome(sent: seq<byte>, send: seq<byte>, next: WriteNext)

  function Sum(s: seq<nat>): nat
  {
    if |s| == 0 then 0 else Sum(s[..|s| - 1]) + s[|s| - 1]
  }

  function Min(a: nat, b: nat): nat
  {
    if a <= b then a else b
  }

  /** `ConnectionHandler::handleWrite`: send from the front of the buffer until it is
      empty or a send returns no bytes. An empty buffer drops write interest; a full
      kernel buffer keeps IN|OUT; anything else closes the connection. */
  method HandleWrite(c: Conn, script: SendScript) returns (o: WriteOutcome)
    requires ValidSends(script.accepted)
    ensures o.sent + o.send == c.send
    ensures |o.sent| == Min(Sum(script.accepted), |c.send|)
    ensures o.next == WantIn <==> o.send == []
    ensures o.next == WantInOut <==> o.send != [] && script.end == SendWouldBlock
    ensures o.next == CloseConn <==> o.send != [] && script.end != SendWouldBlock
  {
    var acc := script.accepted;
    var buf := c.send;
    var sent: seq<byte> := [];
    var i := 0;
    while |buf| > 0 && i < |acc|
      invariant 0 <= i <= |acc|
      invariant sent + buf == c.send
      invariant |sent| == Min(Sum(acc[..i]), |c.send|)
    {
      var n := Min(acc[i], |buf|);
      assert acc[..i + 1][..i] == acc[..i];
      sent := sent + buf[..n];
      buf := buf[n..];
      i := i + 1;
    }
    if |buf| > 0 {
      assert acc[..i] == acc;
    } else {
      SumPrefix(acc, i);
    }
    var next := if |buf| == 0 then WantIn
                else if script.end == SendWouldBlock then WantInOut
                else CloseConn;
    o := WriteOutcome(sent, buf, next);
  }

  lemma {:induction false} SumPrefix(s: seq<nat>, i: nat)
    requires i <= |s|
    ensures Sum(s[..i]) <= Sum(s)
    decreases |s| - i
  {
    if i < |s| {
      SumPrefix(s, i + 1);
      assert s[..i + 1][..i] == s[..i];
    } else {
      assert s[..i] == s;
    }
  }

  // ---------------------------------------------------------------------------
  // Echo path

  datatype EchoOutcome =
    | EchoClosed                               // bad length: closed and removed, no flush
    | EchoFlushed(conn: Conn, sent: seq<byte>, next: WriteNext)

  /** `ConnectionHandler::processMessages`: echo every complete frame, then flush the send
      buffer with `handleWrite` unless a bad length closed the connection. */
  method ProcessMessages(c: Conn, script: SendScript) returns (o: EchoOutcome)
    requires ValidSends(script.accepted)
    ensures o.EchoClosed? <==> Echo(c.recv, c.send).closed
    ensures o.EchoFlushed? ==>
              var e := Echo(c.recv, c.send);
              o.conn.recv == e.recv && o.sent + o.conn.send == e.send &&
              |o.sent| == Min(Sum(script.accepted), |e.send|) &&
              (o.next == WantIn <==> o.conn.send == [])
  {
    var e := Echo(c.recv, c.send);
    if e.closed {
      return EchoClosed;
    }
    var w := HandleWrite(Conn(e.recv, e.send), script);
    o := EchoFlushed(Conn(e.recv, w.send), w.sent, w.next);
  }

  /** Echo round trip through a connection: when a client's buffer holds well-formed
      frames of 1 to 1024 bytes and the kernel accepts at least everything queued, the
      pending output and then every payload go out on the wire in order, the send buffer
      ends empty, write interest is dropped, and the incomplete tail stays buffered. */
  method EchoedOnTheWire(payloads: seq<seq<byte>>, tail: seq<byte>, send: seq<byte>, script: SendScript)
    returns (o: EchoOutcome)
    requires forall i :: 0 <= i < |payloads| ==> 0 < |payloads[i]| <= MaxEchoPayload
    requires !FrameComplete(tail)
    requires ValidSends(script.accepted) && Sum(script.accepted) >= |send| + |Flatten(payloads)|
    ensures o.EchoFlushed? && o.sent == send + Flatten(payloads)
    ensures o.conn == Conn(tail, []) && o.next == WantIn
  {
    EchoRoundTrip(payloads, tail, send);
    o := ProcessMessages(Conn(EncodeFrames(payloads) + tail, send), script);
  }
}
