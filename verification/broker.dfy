/** What the gateway hands to the broker client. The client itself (libmosquitto) and
    the JSON document builder (cJSON) are outside the model: a publish is recorded as an
    effect carrying its topic and an abstract payload, and the client's answers are
    given as inputs. */
module Broker {
  import Epoll

  /** Topic of decoded sensor readings. */
  const SensorDataTopic: string := "sensor/data"
  /** Topic of the discard codec's diagnostic messages. */
  const SensorTopic: string := "sensor"
  /** The constant gateway identifier put into every reading. */
  const GatewayId: nat := 1

  /** A decoded reading. Temperature and humidity stay raw: the published document
      carries `rawTemp / 100.0` and `rawHumi / 100.0`. */
  datatype Reading = Reading(devId: nat, rawTemp: nat, rawHumi: nat, gwId: nat)

  datatype Payload =
    | SensorDoc(reading: Reading)  // the serialised JSON object of a reading
    | FdText(fd: int)              // the decimal text of a descriptor number

  datatype Effect =
    | Publish(topic: string, payload: Payload)
      // `reactor->update(fd, mode)` requested by the codec
    | Rearm(fd: int, mode: Epoll.Mask)

  /** The broker client's and document builder's answers while frames are processed:
      whether the document and its text could be built, whether `mosquitto_publish`
      succeeded, whether `mosquitto_want_write` reports queued output, and the client's
      socket (`-1` when it has none). */
  datatype BrokerEnv = BrokerEnv(docOk: bool, publishOk: bool, wantWrite: bool, socket: int)

  /** The number of publish effects in a trace. */
  function Publishes(fx: seq<Effect>): (n: nat)
    ensures n <= |fx|
  {
    if |fx| == 0 then 0 else (if fx[0].Publish? then 1 else 0) + Publishes(fx[1..])
  }

  lemma {:induction false} PublishesAppend(a: seq<Effect>, b: seq<Effect>)
    ensures Publishes(a + b) == Publishes(a) + Publishes(b)
  {
    if |a| == 0 {
      assert a + b == b;
    } else {
      assert (a + b)[1..] == a[1..] + b;
      PublishesAppend(a[1..], b);
    }
  }
}
