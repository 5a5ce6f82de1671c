/** The packed sensor payload (`SensorRawPacket`, `#pragma pack(1)`): eight bytes
    {deviceId:1, rawTemp:2 BE, rawHumi:2 BE, statusCode:1, checksum:2 BE}, preceded on
    the wire by a two-byte big-endian length field that must equal the payload size. */
module Packet {
  import opened Common

  /** `sizeof(SensorRawPacket)` with one-byte packing. */
  const PacketSize: nat := 8
  /** The big-endian length prefix. */
  const HeaderSize: nat := 2
  /** A whole frame: length prefix plus payload. */
  const FrameSize: nat := HeaderSize + PacketSize

  /** Fields in host order, after `ntohs` on the 16-bit ones. */
  datatype SensorRawPacket = SensorRawPacket(
    deviceId: byte,
    rawTemp: u16,
    rawHumi: u16,
    statusCode: byte,
    checksum: u16)

  /** The wire bytes of a payload. */
  function Encode(p: SensorRawPacket): (bs: seq<byte>)
    ensures |bs| == PacketSize
    ensures bs[0] == p.deviceId
    ensures BE16(bs[1], bs[2]) == p.rawTemp && BE16(bs[3], bs[4]) == p.rawHumi
    ensures bs[5] == p.statusCode
    ensures BE16(bs[6], bs[7]) == p.checksum
  {
    [p.deviceId] + ToBE16(p.rawTemp) + ToBE16(p.rawHumi) + [p.statusCode] + ToBE16(p.checksum)
  }

  /** Reads the payload through the packed struct, converting each 16-bit field from
      network order. */
  function Decode(bs: seq<byte>): (p: SensorRawPacket)
    requires |bs| == PacketSize
    ensures Encode(p) == bs
  {
    BE16RoundTrip(bs[1], bs[2]);
    BE16RoundTrip(bs[3], bs[4]);
    BE16RoundTrip(bs[6], bs[7]);
    SensorRawPacket(bs[0], BE16(bs[1], bs[2]), BE16(bs[3], bs[4]), bs[5], BE16(bs[6], bs[7]))
  }

  /** Decoding the bytes of a payload gives the payload back. */
  lemma DecodeEncode(p: SensorRawPacket)
    ensures Decode(Encode(p)) == p
  {
    var bs := Encode(p);
    var q := Decode(bs);
    BE16Injective(bs[1], bs[2], ToBE16(q.rawTemp)[0], ToBE16(q.rawTemp)[1]);
  }

  /** The 16-bit wrap-around sum `(uint16_t)(id + t + h + s)` over host-order fields. */
  function Checksum(p: SensorRawPacket): u16
  {
    (p.deviceId as int + p.rawTemp + p.rawHumi + p.statusCode as int) % U16
  }

  predicate ChecksumOk(p: SensorRawPacket)
  {
    Checksum(p) == p.checksum
  }

  /** `p` and `q` differ in exactly one of the summed fields; the checksum fields agree. */
  predicate OneFieldDiffers(p: SensorRawPacket, q: SensorRawPacket)
  {
    p.checksum == q.checksum &&
    (if p.deviceId != q.deviceId then 1 else 0) + (if p.rawTemp != q.rawTemp then 1 else 0) +
    (if p.rawHumi != q.rawHumi then 1 else 0) + (if p.statusCode != q.statusCode then 1 else 0) == 1
  }

  /** The 16-bit sum catches any corruption confined to one field: a valid payload with
      one field changed no longer passes the check. */
  lemma ChecksumCatchesOneFieldError(p: SensorRawPacket, q: SensorRawPacket)
    requires ChecksumOk(p) && OneFieldDiffers(p, q)
    ensures !ChecksumOk(q)
  {
    var sp := p.deviceId as int + p.rawTemp + p.rawHumi + p.statusCode as int;
    var sq := q.deviceId as int + q.rawTemp + q.rawHumi + q.statusCode as int;
    assert 0 < sq - sp < U16 || 0 < sp - sq < U16;
  }

  /** The payload a well-behaved sensor sends: the checksum field is filled in. */
  function Seal(deviceId: byte, rawTemp: u16, rawHumi: u16, statusCode: byte): (p: SensorRawPacket)
    ensures ChecksumOk(p)
    ensures p.deviceId == deviceId && p.rawTemp == rawTemp && p.rawHumi == rawHumi
    ensures p.statusCode == statusCode
  {
    var p := SensorRawPacket(deviceId, rawTemp, rawHumi, statusCode, 0);
    p.(checksum := Checksum(p))
  }

  /** A frame on the wire: the length prefix (always the payload size) and the payload. */
  function EncodeFrame(p: SensorRawPacket): (bs: seq<byte>)
    ensures |bs| == FrameSize
    ensures BE16(bs[0], bs[1]) == PacketSize
    ensures bs[HeaderSize..] == Encode(p)
  {
    ToBE16(PacketSize) + Encode(p)
  }

  /** The wire frame of the worked example: device 3, 25.50 degrees, 60.00 percent,
      status 0, checksum 8553. */
  lemma ExampleFrame()
    ensures Seal(3, 2550, 6000, 0).checksum == 8553
    ensures EncodeFrame(Seal(3, 2550, 6000, 0)) == [0, 8, 3, 0x09, 0xF6, 0x17, 0x70, 0, 0x21, 0x69]
  {
  }
}
