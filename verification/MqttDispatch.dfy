/** What the gateway's MQTT client makes of a PUBLISH packet it has read.  The reader leaves the length bytes out of the
    packet, while `_dispatch` counts its offsets as if one were there.
 */
module MqttDispatch {
  import opened Common
  import opened MqttFraming

  /** Which bytes are a text, for the strict decoding of the topic. */
  datatype Text = Text(decodes: seq<Byte> -> bool)

  /** `Raised` is an IndexError or UnicodeDecodeError, which none of the callers catches; `ack` are the two bytes of the
      identifier in the acknowledgement. */
  datatype Result = Raised | Ignored | Pong | Delivered(topic: seq<Byte>, payload: seq<Byte>, ack: Option<(Byte, Byte)>)

  /** Python's `s[from:to]`. */
  function Slice(s: seq<Byte>, from: nat, to: nat): seq<Byte>
    requires from <= to
  {
    if |s| <= from then [] else if |s| <= to then s[from..] else s[from..to]
  }

  /** `_dispatch`. */
  function DispatchOf(text: Text, p: Packet): Result {
    var packet := [p.header] + p.body;
    var kind, qos := p.header as int / 16, p.header as int / 2 % 4;
    if kind == 0xD then Pong
    else if kind != 3 then Ignored
    else if |packet| < 4 then Raised
    else
      var end: nat := 4 + packet[2] as int * 256 + packet[3] as int;
      var topic := Slice(packet, 4, end);
      if !text.decodes(topic) || (qos > 0 && |packet| < end + 2) then Raised
      else
        var start := if qos > 0 then end + 2 else end;
        Delivered(topic, Slice(packet, start, start + |packet|),
                  if qos == 1 then Some((packet[2], packet[3])) else None)
  }

  /** A QoS 1 PUBLISH as section 3.3 of MQTT Version 3.1.1 lays it out: topic length, topic, identifier, payload. */
  function Publish(flags: Byte, topic: seq<Byte>, pid: nat, payload: seq<Byte>): Packet
    requires flags / 2 % 4 == 1 && flags < 16 && |topic| < 65536 && pid < 65536
  {
    Packet(0x30 + flags, [|topic| / 256, |topic| % 256] + topic + [pid / 256, pid % 256] + payload)
  }

  /** Where the client takes the topic to end, counted from its own start. */
  function LengthTaken(topic: seq<Byte>): nat
    requires topic != []
  {
    |topic| % 256 * 256 + topic[0] as int
  }

  lemma PublishBytes(flags: Byte, topic: seq<Byte>, pid: nat, payload: seq<Byte>)
    requires flags / 2 % 4 == 1 && flags < 16 && 0 < |topic| < 65536 && pid < 65536
    ensures var p := Publish(flags, topic, pid, payload);
            var packet := [p.header] + p.body;
            && p.header / 16 == 3 && p.header / 2 % 4 == 1
            && |packet| == |topic| + 5 + |payload| && packet[2] == |topic| % 256 && packet[3] == topic[0]
            && packet[|topic| + 5..] == payload && packet[4..|topic| + 3] == topic[1..]
  {
    var p := Publish(flags, topic, pid, payload);
    var front := [p.header] + [|topic| / 256, |topic| % 256] + topic + [pid / 256, pid % 256];
    assert [p.header] + p.body == front + payload;
    assert front[4..|topic| + 3] == topic[1..];
  }

  /** What becomes of every publish: the client reads the second length byte and the first byte of the topic as the
      length, raises if the packet does not reach that far, and else passes on what lies behind. */
  lemma PublishOutcome(text: Text, flags: Byte, topic: seq<Byte>, pid: nat, payload: seq<Byte>)
    requires flags / 2 % 4 == 1 && flags < 16 && 0 < |topic| < 65536 && pid < 65536
    ensures var p := Publish(flags, topic, pid, payload);
            var r := DispatchOf(text, p);
            var packet, taken := [p.header] + p.body, LengthTaken(topic);
            && (r.Raised? <==> |topic| + |payload| <= taken || !text.decodes(Slice(packet, 4, 4 + taken)))
            && (!r.Raised? ==> r == Delivered(packet[4..4 + taken], packet[6 + taken..],
                                              Some((|topic| % 256, topic[0]))))
  {
    PublishBytes(flags, topic, pid, payload);
  }

  /** The exact condition for the payload to reach the callback as it was sent: the topic is 257 times as long as one
      more than its first byte, or 256 bytes that start with 255, and the rest of it is a text. */
  lemma PayloadIntactIff(text: Text, flags: Byte, topic: seq<Byte>, pid: nat, payload: seq<Byte>)
    requires flags / 2 % 4 == 1 && flags < 16 && 0 < |topic| < 65536 && pid < 65536
    ensures var r := DispatchOf(text, Publish(flags, topic, pid, payload));
            r.Delivered? && r.payload == payload
            <==> && (|topic| == 257 * (topic[0] as int + 1) || (topic[0] == 255 && |topic| == 256))
                 && text.decodes(topic[1..])
  {
    PublishBytes(flags, topic, pid, payload);
    PublishOutcome(text, flags, topic, pid, payload);
    TakenIff(|topic|, topic[0]);
    hide DispatchOf, Publish;
  }

  lemma TakenIff(n: nat, first: int)
    requires 0 < n < 65536 && 0 <= first < 256
    ensures n % 256 * 256 + first + 1 == n <==> n == 257 * (first + 1) || (first == 255 && n == 256)
  {
    var high, low := n / 256, n % 256;
    assert n == 256 * high + low;
  }

  /** So on a topic shorter than 256 bytes, such as a gateway's command topic, no publish is passed on as it was sent:
      the client raises unless the payload is longer than 255 bytes for every byte of the topic and one for each unit
      of its first byte, and else it cuts those bytes off. */
  lemma ShortTopicNeverIntact(text: Text, flags: Byte, topic: seq<Byte>, pid: nat, payload: seq<Byte>)
    requires flags / 2 % 4 == 1 && flags < 16 && 0 < |topic| < 256 && pid < 65536
    ensures var r, lost := DispatchOf(text, Publish(flags, topic, pid, payload)), 255 * |topic| + topic[0] as int + 1;
            && (|payload| < lost ==> r.Raised?)
            && (r.Delivered? ==> |payload| >= lost && r.payload == payload[lost..])
            && !(r.Delivered? && r.payload == payload)
  {
    PublishBytes(flags, topic, pid, payload);
    PublishOutcome(text, flags, topic, pid, payload);
    hide DispatchOf, Publish;
  }

  /** And the acknowledgement names the publish if and only if its identifier happens to be the length the client
      takes the topic to have. */
  lemma AckNamesPublishIff(text: Text, flags: Byte, topic: seq<Byte>, pid: nat, payload: seq<Byte>)
    requires flags / 2 % 4 == 1 && flags < 16 && 0 < |topic| < 65536 && pid < 65536
    requires DispatchOf(text, Publish(flags, topic, pid, payload)).Delivered?
    ensures DispatchOf(text, Publish(flags, topic, pid, payload)).ack == Some((pid / 256, pid % 256))
       <==> pid == LengthTaken(topic)
  {
    PublishOutcome(text, flags, topic, pid, payload);
    hide DispatchOf, Publish;
  }
}
