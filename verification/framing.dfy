/** The generic length-prefixed framing of `ConnectionHandler`: a two-byte big-endian
    length followed by that many payload bytes. `processMessages` echoes payloads of 1 to
    1024 bytes into the send buffer and closes the connection on any other length;
    `mqttProcessMessages` discards every complete frame and publishes the connection's
    descriptor number to "sensor" for each one. Both stop at the first incomplete frame. */
module Framing {
  import opened Common
  import opened Broker

  const LengthSize: nat := 2
  /** Largest payload the echo codec accepts. */
  const MaxEchoPayload: nat := 1024

  /** The buffer holds a whole frame at its front. */
  predicate FrameComplete(buf: seq<byte>)
  {
    |buf| >= LengthSize && |buf| - LengthSize >= BE16(buf[0], buf[1])
  }

  /** The length field of the frame at the front of the buffer. */
  function FrameLength(buf: seq<byte>): u16
    requires |buf| >= LengthSize
  {
    BE16(buf[0], buf[1])
  }

  /** A frame on the wire. */
  function EncodeFrame(payload: seq<byte>): (bs: seq<byte>)
    requires |payload| < U16
    ensures |bs| == LengthSize + |payload|
    ensures FrameComplete(bs) && FrameLength(bs) == |payload|
    ensures bs[LengthSize..] == payload
  {
    ToBE16(|payload|) + payload
  }

  /** Payloads framed back to back. */
  function EncodeFrames(payloads: seq<seq<byte>>): seq<byte>
    requires forall i :: 0 <= i < |payloads| ==> |payloads[i]| < U16
  {
    if |payloads| == 0 then [] else EncodeFrame(payloads[0]) + EncodeFrames(payloads[1..])
  }

  /** Splitting a framed payload off the front of a longer buffer. */
  lemma FrameAtFront(payload: seq<byte>, rest: seq<byte>)
    requires |payload| < U16
    ensures var buf := EncodeFrame(payload) + rest;
            FrameComplete(buf) && FrameLength(buf) == |payload| &&
            buf[LengthSize..LengthSize + |payload|] == payload &&
            buf[LengthSize + |payload|..] == rest
  {
    var f := EncodeFrame(payload);
    var buf := f + rest;
    assert buf[..|f|] == f;
    assert buf[LengthSize..LengthSize + |payload|] == f[LengthSize..];
  }

  // ---------------------------------------------------------------------------
  // Echo codec (`processMessages`)

  datatype EchoResult = EchoResult(recv: seq<byte>, send: seq<byte>, closed: bool)

  /** One run of the `processMessages` loop. On `closed` the connection has been closed
      and removed and the buffers are no longer used; the loop returns without flushing. */
  function Echo(recv: seq<byte>, send: seq<byte>): (r: EchoResult)
    ensures IsSuffix(r.recv, recv)
    ensures |r.send| >= |send| && r.send[..|send|] == send
    ensures !r.closed ==> !FrameComplete(r.recv)
    ensures r.closed ==> FrameComplete(r.recv) &&
                         (FrameLength(r.recv) == 0 || FrameLength(r.recv) > MaxEchoPayload)
    ensures |r.send| - |send| <= |recv| - |r.recv|
    decreases |recv|
  {
    if |recv| < LengthSize then EchoResult(recv, send, false)
    else
      var len := FrameLength(recv);
      if |recv| - LengthSize < len then EchoResult(recv, send, false)
      else if len == 0 || len > MaxEchoPayload then EchoResult(recv, send, true)
      else
        var r := Echo(recv[LengthSize + len..], send + recv[LengthSize..LengthSize + len]);
        SuffixOfDrop(r.recv, recv, LengthSize + len);
        PrefixOfExtend(r.send, send, recv[LengthSize..LengthSize + len]);
        r
  }

  /** An accepted frame at the front is echoed and consumed, then the loop goes on. */
  lemma EchoStep(buf: seq<byte>, send: seq<byte>)
    requires FrameComplete(buf) && 0 < FrameLength(buf) <= MaxEchoPayload
    ensures var n := LengthSize + FrameLength(buf);
            Echo(buf, send) == Echo(buf[n..], send + buf[LengthSize..n])
  {
  }

  /** An accepted framed payload at the front is echoed and the loop continues after it. */
  lemma EchoFront(p: seq<byte>, rest: seq<byte>, send: seq<byte>)
    requires 0 < |p| <= MaxEchoPayload
    ensures Echo(EncodeFrame(p) + rest, send) == Echo(rest, send + p)
  {
    var buf := EncodeFrame(p) + rest;
    FrameAtFront(p, rest);
    EchoStep(buf, send);
  }

  /** Peeling the first frame off an encoded stream of accepted payloads. */
  lemma EchoFirstFrame(payloads: seq<seq<byte>>, tail: seq<byte>, send: seq<byte>)
    requires |payloads| > 0 && 0 < |payloads[0]| <= MaxEchoPayload
    requires forall i :: 0 <= i < |payloads| ==> |payloads[i]| < U16
    ensures Echo(EncodeFrames(payloads) + tail, send)
            == Echo(EncodeFrames(payloads[1..]) + tail, send + payloads[0])
  {
    var rest := EncodeFrames(payloads[1..]) + tail;
    assert EncodeFrames(payloads) + tail == EncodeFrame(payloads[0]) + rest;
    EchoFront(payloads[0], rest, send);
  }

  /** Round trip: frames carrying 1 to 1024 bytes each, followed by a tail holding no
      complete frame, are echoed payload by payload, in order, and the tail is kept. */
  lemma {:induction false} EchoRoundTrip(payloads: seq<seq<byte>>, tail: seq<byte>, send: seq<byte>)
    requires forall i :: 0 <= i < |payloads| ==> 0 < |payloads[i]| <= MaxEchoPayload
    requires !FrameComplete(tail)
    ensures Echo(EncodeFrames(payloads) + tail, send) == EchoResult(tail, send + Flatten(payloads), false)
  {
    if |payloads| == 0 {
      assert EncodeFrames(payloads) + tail == tail;
      assert send + Flatten(payloads) == send;
    } else {
      EchoFirstFrame(payloads, tail, send);
      EchoRoundTrip(payloads[1..], tail, send + payloads[0]);
      FlattenCons(payloads);
      AppendAssoc(send, payloads[0], Flatten(payloads[1..]));
    }
  }

  lemma EchoRejects(buf: seq<byte>, send: seq<byte>)
    requires FrameComplete(buf) && (FrameLength(buf) == 0 || FrameLength(buf) > MaxEchoPayload)
    ensures Echo(buf, send) == EchoResult(buf, send, true)
  {
  }

  /** A complete frame declaring length 0 or more than 1024 closes the connection, and
      nothing is echoed for it; frames before it are echoed normally. */
  lemma {:induction false} EchoClosesOnBadLength(payloads: seq<seq<byte>>, bad: seq<byte>, send: seq<byte>)
    requires forall i :: 0 <= i < |payloads| ==> 0 < |payloads[i]| <= MaxEchoPayload
    requires FrameComplete(bad) && (FrameLength(bad) == 0 || FrameLength(bad) > MaxEchoPayload)
    ensures Echo(EncodeFrames(payloads) + bad, send) == EchoResult(bad, send + Flatten(payloads), true)
  {
    if |payloads| == 0 {
      assert EncodeFrames(payloads) + bad == bad;
      assert send + Flatten(payloads) == send;
      EchoRejects(bad, send);
    } else {
      EchoFirstFrame(payloads, bad, send);
      EchoClosesOnBadLength(payloads[1..], bad, send + payloads[0]);
      FlattenCons(payloads);
      AppendAssoc(send, payloads[0], Flatten(payloads[1..]));
    }
  }

  /** An oversized length is only acted on once its whole payload has arrived: until
      then the codec waits and keeps every byte. */
  lemma EchoWaitsBeforeLengthCheck(recv: seq<byte>, send: seq<byte>)
    requires |recv| >= LengthSize && FrameLength(recv) > MaxEchoPayload
    requires |recv| - LengthSize < FrameLength(recv)
    ensures Echo(recv, send) == EchoResult(recv, send, false)
  {
  }

  // ---------------------------------------------------------------------------
  // Discard codec (`mqttProcessMessages`)

  datatype DiscardResult = DiscardResult(recv: seq<byte>, effects: seq<Effect>)

  /** The diagnostic publish for one discarded frame: the descriptor number as text on
      "sensor", only when the reactor has a broker client. */
  function DiscardNotice(fd: int, hasBroker: bool): (fx: seq<Effect>)
    ensures hasBroker ==> fx == [Publish(SensorTopic, FdText(fd))]
    ensures !hasBroker ==> fx == []
  {
    if hasBroker then [Publish(SensorTopic, FdText(fd))] else []
  }

  /** One run of the `mqttProcessMessages` loop. A zero length consumes just the prefix;
      every length is accepted. */
  function Discard(recv: seq<byte>, fd: int, hasBroker: bool): (r: DiscardResult)
    ensures IsSuffix(r.recv, recv)
    ensures !FrameComplete(r.recv)
    ensures 2 * Publishes(r.effects) <= |recv| - |r.recv|
    ensures !hasBroker ==> r.effects == []
    ensures |recv| < LengthSize ==> r.recv == recv
    decreases |recv|
  {
    if |recv| < LengthSize then DiscardResult(recv, [])
    else
      var len := FrameLength(recv);
      if |recv| - LengthSize < len then DiscardResult(recv, [])
      else
        var r := Discard(recv[LengthSize + len..], fd, hasBroker);
        SuffixOfDrop(r.recv, recv, LengthSize + len);
        PublishesAppend(DiscardNotice(fd, hasBroker), r.effects);
        DiscardResult(r.recv, DiscardNotice(fd, hasBroker) + r.effects)
  }

  /** One complete frame at the front is dropped with its notice. */
  lemma DiscardStep(buf: seq<byte>, fd: int, hasBroker: bool)
    requires FrameComplete(buf)
    ensures var r := Discard(buf, fd, hasBroker);
            var t := Discard(buf[LengthSize + FrameLength(buf)..], fd, hasBroker);
            r.recv == t.recv && r.effects == DiscardNotice(fd, hasBroker) + t.effects
  {
  }

  /** Peeling the first frame off an encoded stream. */
  lemma DiscardFirstFrame(payloads: seq<seq<byte>>, tail: seq<byte>, fd: int, hasBroker: bool)
    requires |payloads| > 0
    requires forall i :: 0 <= i < |payloads| ==> |payloads[i]| < U16
    ensures var r := Discard(EncodeFrames(payloads) + tail, fd, hasBroker);
            var t := Discard(EncodeFrames(payloads[1..]) + tail, fd, hasBroker);
            r.recv == t.recv && r.effects == DiscardNotice(fd, hasBroker) + t.effects
  {
    var rest := EncodeFrames(payloads[1..]) + tail;
    assert EncodeFrames(payloads) + tail == EncodeFrame(payloads[0]) + rest;
    FrameAtFront(payloads[0], rest);
    DiscardStep(EncodeFrame(payloads[0]) + rest, fd, hasBroker);
  }

  /** The notices for `n` discarded frames. */
  function Notices(n: nat, fd: int, hasBroker: bool): seq<Effect>
  {
    if n == 0 then [] else DiscardNotice(fd, hasBroker) + Notices(n - 1, fd, hasBroker)
  }

  /** Every complete frame, whatever its length, is dropped with one notice; the
      incomplete tail is kept. */
  lemma {:induction false} DiscardRoundTrip(payloads: seq<seq<byte>>, tail: seq<byte>, fd: int, hasBroker: bool)
    requires forall i :: 0 <= i < |payloads| ==> |payloads[i]| < U16
    requires !FrameComplete(tail)
    ensures Discard(EncodeFrames(payloads) + tail, fd, hasBroker)
            == DiscardResult(tail, Notices(|payloads|, fd, hasBroker))
  {
    if |payloads| == 0 {
      assert EncodeFrames(payloads) + tail == tail;
    } else {
      var r := Discard(EncodeFrames(payloads) + tail, fd, hasBroker);
      var t := Discard(EncodeFrames(payloads[1..]) + tail, fd, hasBroker);
      DiscardFirstFrame(payloads, tail, fd, hasBroker);
      DiscardRoundTrip(payloads[1..], tail, fd, hasBroker);
      assert t.recv == tail && t.effects == Notices(|payloads| - 1, fd, hasBroker);
      assert r.recv == tail;
      assert r.effects == Notices(|payloads|, fd, hasBroker);
    }
  }
}
