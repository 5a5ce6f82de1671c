/** `Protocol::frameParse`: extracts sensor frames from the receive buffer. With fewer
    than ten bytes buffered it waits. A length field other than eight slides the buffer by
    one byte. A bad checksum discards the whole ten-byte frame. A good frame is published
    to "sensor/data", write interest is armed on the broker socket when the client queued
    output, and the frame is consumed. The loop is written as recursion on the buffer. */
module Protocol {
  import opened Common
  import opened Packet
  import opened Broker
  import Epoll

  datatype ParseResult = ParseResult(rest: seq<byte>, effects: seq<Effect>)

  /** The big-endian length prefix at the front of the buffer. */
  function LengthField(buf: seq<byte>): u16
    requires |buf| >= HeaderSize
  {
    BE16(buf[0], buf[1])
  }

  /** The payload bytes of the frame at the front of the buffer. */
  function PayloadAt(buf: seq<byte>): SensorRawPacket
    requires |buf| >= FrameSize
  {
    Decode(buf[HeaderSize..FrameSize])
  }

  /** The reading a valid payload becomes. */
  function ReadingOf(p: SensorRawPacket): (r: Reading)
    ensures r.devId == p.deviceId as int && r.gwId == GatewayId
    ensures r.rawTemp == p.rawTemp && r.rawHumi == p.rawHumi
  {
    Reading(p.deviceId as int, p.rawTemp, p.rawHumi, GatewayId)
  }

  /** What a sensor sends is what gets published: the payload read back from the wire
      frame of a sealed packet passes the checksum and yields the sensor's device id,
      raw temperature and raw humidity, tagged with gateway 1. */
  lemma ReadingOfWireFrame(d: byte, t: u16, h: u16, st: byte)
    ensures var p := PayloadAt(EncodeFrame(Seal(d, t, h, st)));
            ChecksumOk(p) && ReadingOf(p) == Reading(d as int, t, h, GatewayId)
  {
    DecodeEncode(Seal(d, t, h, st));
  }

  /** The publish step for one valid payload: nothing when the document could not be
      built; otherwise one publish to "sensor/data", followed by a request for IN|OUT
      interest on the broker socket when the publish succeeded, the client wants to
      write and its socket is valid. */
  function PublishReading(p: SensorRawPacket, env: BrokerEnv): (fx: seq<Effect>)
    ensures !env.docOk ==> fx == []
    ensures env.docOk ==> |fx| >= 1 && fx[0] == Publish(SensorDataTopic, SensorDoc(ReadingOf(p)))
    ensures Publishes(fx) == (if env.docOk then 1 else 0)
    ensures |fx| == 2 <==> env.docOk && env.publishOk && env.wantWrite && env.socket != -1
    ensures |fx| == 2 ==> fx[1] == Rearm(env.socket, Epoll.In | Epoll.Out)
  {
    if !env.docOk then []
    else
      [Publish(SensorDataTopic, SensorDoc(ReadingOf(p)))]
      + (if env.publishOk && env.wantWrite && env.socket != -1
         then [Rearm(env.socket, Epoll.In | Epoll.Out)] else [])
  }

  /** Every effect of the parser is a sensor publish or a write-interest request on the
      broker socket. */
  ghost predicate ParserEffects(fx: seq<Effect>, env: BrokerEnv)
  {
    forall i :: 0 <= i < |fx| ==>
      (fx[i].Publish? ==> fx[i].topic == SensorDataTopic && fx[i].payload.SensorDoc?) &&
      (fx[i].Rearm? ==> fx[i].fd == env.socket && fx[i].mode == Epoll.In | Epoll.Out)
  }

  lemma EffectsAppend(a: seq<Effect>, b: seq<Effect>, env: BrokerEnv)
    requires ParserEffects(a, env) && ParserEffects(b, env)
    ensures ParserEffects(a + b, env)
  {
    var ab := a + b;
    forall i | 0 <= i < |ab|
      ensures (ab[i].Publish? ==> ab[i].topic == SensorDataTopic && ab[i].payload.SensorDoc?) &&
              (ab[i].Rearm? ==> ab[i].fd == env.socket && ab[i].mode == Epoll.In | Epoll.Out)
    {
      if i >= |a| { assert ab[i] == b[i - |a|]; }
    }
  }

  function FrameParse(buf: seq<byte>, env: BrokerEnv): (r: ParseResult)
    ensures IsSuffix(r.rest, buf)
    ensures |r.rest| < FrameSize
    ensures |buf| < FrameSize ==> r.rest == buf && r.effects == []
    ensures 10 * Publishes(r.effects) <= |buf| - |r.rest|
    ensures ParserEffects(r.effects, env)
    decreases |buf|
  {
    if |buf| < FrameSize then ParseResult(buf, [])
    else if LengthField(buf) != PacketSize then
      var r := FrameParse(buf[1..], env);
      SuffixOfDrop(r.rest, buf, 1);
      r
    else
      // The code's "wait for the rest of the frame" return needs |buf| < 10 here,
      // which the first test already excluded (see FullFrameAlwaysBuffered).
      var p := PayloadAt(buf);
      var tail := FrameParse(buf[FrameSize..], env);
      SuffixOfDrop(tail.rest, buf, FrameSize);
      if !ChecksumOk(p) then tail
      else
        var fx := PublishReading(p, env);
        PublishesAppend(fx, tail.effects);
        EffectsAppend(fx, tail.effects, env);
        ParseResult(tail.rest, fx + tail.effects)
  }

  /** Once the length field reads eight, the whole frame is already in the buffer, so the
      "wait for a full frame" return is never taken. */
  lemma FullFrameAlwaysBuffered(buf: seq<byte>)
    requires |buf| >= FrameSize && LengthField(buf) == PacketSize
    ensures |buf| >= LengthField(buf) + HeaderSize
  {
  }

  /** A length field other than eight removes exactly the first byte and parsing
      restarts there; no other byte is dropped. */
  lemma ParseSlidesOneByte(buf: seq<byte>, env: BrokerEnv)
    requires |buf| >= FrameSize && LengthField(buf) != PacketSize
    ensures FrameParse(buf, env) == FrameParse(buf[1..], env)
  {
  }

  /** A frame whose checksum disagrees is dropped whole and publishes nothing. */
  lemma ParseDropsCorruptFrame(buf: seq<byte>, env: BrokerEnv)
    requires |buf| >= FrameSize && LengthField(buf) == PacketSize
    requires !ChecksumOk(PayloadAt(buf))
    ensures FrameParse(buf, env) == FrameParse(buf[FrameSize..], env)
  {
  }

  /** A valid frame yields exactly its publish step, then parsing continues after its
      ten bytes. */
  lemma ParsePublishesValidFrame(buf: seq<byte>, env: BrokerEnv)
    requires |buf| >= FrameSize && LengthField(buf) == PacketSize
    requires ChecksumOk(PayloadAt(buf))
    ensures var r := FrameParse(buf, env);
            var tail := FrameParse(buf[FrameSize..], env);
            r.rest == tail.rest && r.effects == PublishReading(PayloadAt(buf), env) + tail.effects
  {
  }

  /** The frames of a stream of payloads, back to back. */
  function EncodeFrames(ps: seq<SensorRawPacket>): (bs: seq<byte>)
    ensures |bs| == 10 * |ps|
  {
    if |ps| == 0 then [] else EncodeFrame(ps[0]) + EncodeFrames(ps[1..])
  }

  /** The publish steps of a stream of payloads, in order. */
  function PublishAll(ps: seq<SensorRawPacket>, env: BrokerEnv): seq<Effect>
  {
    if |ps| == 0 then [] else PublishReading(ps[0], env) + PublishAll(ps[1..], env)
  }

  /** The fields a parser sees when an encoded frame is at the front of the buffer. */
  lemma FrameAtFront(p: SensorRawPacket, rest: seq<byte>)
    ensures var buf := EncodeFrame(p) + rest;
            |buf| >= FrameSize && LengthField(buf) == PacketSize &&
            PayloadAt(buf) == p && buf[FrameSize..] == rest
  {
    var f := EncodeFrame(p);
    var buf := f + rest;
    assert buf[..FrameSize] == f;
    assert buf[HeaderSize..FrameSize] == f[HeaderSize..];
    DecodeEncode(p);
  }

  /** Peeling the first frame off an encoded stream. */
  lemma ParseFirstFrame(ps: seq<SensorRawPacket>, tail: seq<byte>, env: BrokerEnv)
    requires |ps| > 0 && ChecksumOk(ps[0])
    ensures var r := FrameParse(EncodeFrames(ps) + tail, env);
            var t := FrameParse(EncodeFrames(ps[1..]) + tail, env);
            r.rest == t.rest && r.effects == PublishReading(ps[0], env) + t.effects
  {
    var rest := EncodeFrames(ps[1..]) + tail;
    assert EncodeFrames(ps) + tail == EncodeFrame(ps[0]) + rest;
    FrameAtFront(ps[0], rest);
    ParsePublishesValidFrame(EncodeFrame(ps[0]) + rest, env);
  }

  /** Round trip: a stream of correctly sealed frames followed by an incomplete tail is
      parsed into exactly one publish step per frame, in order, and leaves the tail. */
  lemma {:induction false} ParseEncodedFrames(ps: seq<SensorRawPacket>, tail: seq<byte>, env: BrokerEnv)
    requires forall i :: 0 <= i < |ps| ==> ChecksumOk(ps[i])
    requires |tail| < FrameSize
    ensures FrameParse(EncodeFrames(ps) + tail, env) == ParseResult(tail, PublishAll(ps, env))
  {
    if |ps| == 0 {
      assert EncodeFrames(ps) + tail == tail;
    } else {
      ParseFirstFrame(ps, tail, env);
      ParseEncodedFrames(ps[1..], tail, env);
    }
  }

  /** An encoded stream starts with the high byte of the length eight, a zero. */
  lemma EncodedStreamStart(ps: seq<SensorRawPacket>, tail: seq<byte>)
    requires |ps| > 0
    ensures |EncodeFrames(ps) + tail| >= FrameSize && (EncodeFrames(ps) + tail)[0] == 0
  {
    assert EncodeFrames(ps) == EncodeFrame(ps[0]) + EncodeFrames(ps[1..]);
  }

  /** Resynchronisation: one stray byte in front of a healthy frame stream costs nothing;
      the parser slides past it and decodes every frame. (A stray byte `g` makes the
      length field `g * 256`, never eight.) */
  lemma StrayByteIsSkipped(g: byte, ps: seq<SensorRawPacket>, tail: seq<byte>, env: BrokerEnv)
    requires |ps| > 0
    requires forall i :: 0 <= i < |ps| ==> ChecksumOk(ps[i])
    requires |tail| < FrameSize
    ensures FrameParse([g] + (EncodeFrames(ps) + tail), env) == ParseResult(tail, PublishAll(ps, env))
  {
    var s := EncodeFrames(ps) + tail;
    var buf := [g] + s;
    EncodedStreamStart(ps, tail);
    assert buf[1] == s[0] && buf[1..] == s;
    ParseSlidesOneByte(buf, env);
    ParseEncodedFrames(ps, tail, env);
  }

  /** The worked example: length 8, device 3, rawTemp 2550, rawHumi 6000, status 0,
      checksum 8553 is published once as {dev_id 3, temp 25.50, humi 60.00, gw_id 1} and
      consumes all ten bytes. */
  lemma ExampleFrameIsPublished(env: BrokerEnv)
    requires env.docOk
    ensures var r := FrameParse([0, 8, 3, 0x09, 0xF6, 0x17, 0x70, 0, 0x21, 0x69], env);
            r.rest == [] && Publishes(r.effects) == 1 &&
            r.effects[0] == Publish(SensorDataTopic, SensorDoc(Reading(3, 2550, 6000, 1)))
  {
    var p := Seal(3, 2550, 6000, 0);
    ExampleFrame();
    assert EncodeFrames([p]) == EncodeFrame(p);
    assert EncodeFrames([p]) + [] == EncodeFrames([p]);
    ParseEncodedFrames([p], [], env);
    assert PublishAll([p], env) == PublishReading(p, env) + [];
  }
}
