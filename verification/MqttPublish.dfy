/** MQTTSerializePublish.c and MQTTDeserializePublish.c. */
module MqttPublish {
  import opened Bytes
  import opened MqttPacket
  import opened MqttStrings

  const PUBLISH := 3
  const BUFFER_TOO_SHORT := -2

  datatype Publish = Publish(dup: nat, qos: nat, retained: nat, packetId: nat, topic: seq<byte>, payload: seq<byte>)

  /** What a PUBLISH packet can carry. */
  predicate Sendable(p: Publish) {
    && p.dup < 2 && p.qos < 4 && p.retained < 2 && p.packetId < 0x1_0000 && |p.topic| < 0x1_0000
    && |PublishBody(p)| <= MAX_LENGTH
  }

  /** Variable header and payload of MQTT 3.1.1, section 3.3; the packet identifier is there above QoS 0 only. */
  function PublishBody(p: Publish): (r: seq<byte>)
    ensures |r| == 2 + |p.topic| + |p.payload| + if p.qos > 0 then 2 else 0
  {
    TextBytes(p.topic) + (if p.qos > 0 then IntBytes(p.packetId) else []) + p.payload
  }

  function PublishHeader(p: Publish): byte {
    Header(PUBLISH, p.dup, p.qos, p.retained)
  }

  /** MQTTSerialize_publish: the packet is written from the start of the buffer and nothing behind it, or the
      buffer is refused and left alone. */
  method SerializePublish(buf: array<byte>, buflen: nat, dup: nat, qos: nat, retained: nat, packetId: nat,
                          topic: MqttString, payload: seq<byte>)
    returns (rc: int)
    requires buflen <= buf.Length && Writable(topic)
             && Sendable(Publish(dup, qos, retained, packetId, Text(topic), payload))
    modifies buf
    ensures var p := Publish(dup, qos, retained, packetId, Text(topic), payload);
            var wire := Frame(PublishHeader(p), PublishBody(p));
            if PacketLen(|PublishBody(p)|) > buflen then rc == BUFFER_TOO_SHORT && buf[..] == old(buf[..])
            else rc == |wire| <= buflen && Wrote(old(buf[..]), buf[..], 0, wire)
    ensures rc != -2 ==> rc > 0 && buf[0] / 16 == 3 && buf[0] / 8 % 2 == dup && buf[0] / 2 % 4 == qos
                         && buf[0] % 2 == retained
  {
    assert BUFFER_TOO_SHORT == -2;
    ghost var p := Publish(dup, qos, retained, packetId, Text(topic), payload);
    var remLen := 2 + StrLen(topic) + |payload| + if qos > 0 then 2 else 0;
    PacketLenExact(remLen);
    assert remLen == |PublishBody(p)| && StrLen(topic) == |Text(topic)|;
    ghost var head, text := [PublishHeader(p)] + Encode(remLen), TextBytes(Text(topic));
    ghost var id: seq<byte> := if qos > 0 then IntBytes(packetId) else [];
    ghost var upTopic := head + text;
    ghost var upId := upTopic + id;
    ghost var wire := Frame(PublishHeader(p), PublishBody(p));
    hide *;
    Regroup(head, text, id, payload);
    Assembled(p, head, text, id);
    EmptyTail(upTopic);
    if PacketLen(remLen) > buflen {
      return BUFFER_TOO_SHORT;
    }
    ghost var b := buf[..];
    var ptr := WriteHead(buf, Header(PUBLISH, dup, qos, retained), remLen);
    ghost var c, at := buf[..], ptr;
    ptr := WriteMqttString(buf, ptr, topic);
    WroteOn(b, c, buf[..], 0, head, at, text, upTopic);
    if qos > 0 {
      c, at := buf[..], ptr;
      ptr := WriteInt(buf, ptr, packetId);
      WroteOn(b, c, buf[..], 0, upTopic, at, id, upId);
    }
    c, at := buf[..], ptr;
    ptr := WriteBytes(buf, ptr, payload);
    WroteOn(b, c, buf[..], 0, upId, at, payload, wire);
    PublishFirst(b, buf[..], p);
    rc := ptr;
  }

  lemma PublishFirst(b: seq<byte>, c: seq<byte>, p: Publish)
    requires Sendable(p) && Wrote(b, c, 0, Frame(PublishHeader(p), PublishBody(p)))
    ensures c != [] && c[0] / 16 == 3 && c[0] / 8 % 2 == p.dup && c[0] / 2 % 4 == p.qos && c[0] % 2 == p.retained
  {
    HeaderBits(3, p.dup, p.qos, p.retained);
    hide Header, PublishBody, Wrote, Frame;
    FirstByte(b, c, PublishHeader(p), PublishBody(p));
  }

  /** Two packets byte by byte: with a packet identifier and every flag, and without either. */
  lemma PublishWire()
    ensures var p := Publish(1, 1, 1, 0x0102, [0x61, 0x2F, 0x62], [0x68, 0x69]);
            Frame(PublishHeader(p), PublishBody(p)) ==
            [0x3B, 0x09, 0x00, 0x03, 0x61, 0x2F, 0x62, 0x01, 0x02, 0x68, 0x69]
    ensures var p := Publish(0, 0, 0, 0x0102, [0x61], []);
            Frame(PublishHeader(p), PublishBody(p)) == [0x30, 0x03, 0x00, 0x01, 0x61]
  {
    assert Encode(9) == [9] && Encode(3) == [3];
  }

  lemma Assembled(p: Publish, head: seq<byte>, text: seq<byte>, id: seq<byte>)
    requires head == [PublishHeader(p)] + Encode(|PublishBody(p)|) && text == TextBytes(p.topic)
    requires id == if p.qos > 0 then IntBytes(p.packetId) else []
    ensures Frame(PublishHeader(p), PublishBody(p)) == head + (text + id + p.payload)
    ensures |Frame(PublishHeader(p), PublishBody(p))| == 1 + |Encode(|PublishBody(p)|)| + |PublishBody(p)|
  {
  }

  /** MQTTDeserialize_publish on a buffer that starts with a PUBLISH packet, whatever its length bytes: every field
      comes back. */
  method DeserializePublish(buf: array<byte>, ghost p: Publish, ghost e: seq<byte>)
    returns (rc: nat, dup: nat, qos: nat, retained: nat, packetId: nat, topic: MqttString, payload: seq<byte>)
    requires Sendable(p) && ValidLength(e) && Value(e) == |PublishBody(p)|
    requires At(buf[..], 0, FrameWith(PublishHeader(p), e, PublishBody(p)))
    ensures rc == 1 && dup == p.dup && qos == p.qos && retained == p.retained
    ensures topic == Delimited(p.topic) && payload == p.payload && (qos > 0 ==> packetId == p.packetId)
  {
    hide *;
    ghost var at, o, k, last := PublishOnWire(buf[..], p, e);
    rc, dup, qos, retained, packetId, topic, payload := 0, 0, 0, 0, 0, MqttString(None, None), [];
    if HeaderType(buf[0]) == PUBLISH {
      dup, qos, retained := HeaderDup(buf[0]), HeaderQos(buf[0]), HeaderRetain(buf[0]);
      var mylen;
      rc, mylen := DecodeBuf(buf, 1);
      var cur := 1 + rc;
      var end := cur + mylen;
      var ok;
      ok, topic, cur := ReadLenString(buf, cur, end);
      if ok {
        if qos > 0 {
          packetId, cur := ReadInt(buf, cur);
        }
        payload := buf[cur..end];
        rc := 1;
      }
    }
  }

  /** Serialised, then deserialised: every field comes back, and a refused buffer is too short by at most one byte. */
  method EchoPublish(buf: array<byte>, p: Publish, topic: MqttString) returns (rc: int, back: Publish)
    requires Writable(topic) && Text(topic) == p.topic && Sendable(p)
    modifies buf
    ensures rc == BUFFER_TOO_SHORT ==> |Frame(PublishHeader(p), PublishBody(p))| + 1 > buf.Length
    ensures rc != BUFFER_TOO_SHORT ==> rc == 1 && back.dup == p.dup && back.qos == p.qos && back.retained == p.retained
    ensures rc != BUFFER_TOO_SHORT ==>
              back.topic == p.topic && back.payload == p.payload
              && (p.qos > 0 ==> back.packetId == p.packetId)
  {
    PacketLenExact(|PublishBody(p)|);
    EncodeLength(|PublishBody(p)|);
    EncodeValue(|PublishBody(p)|);
    hide Sendable, Writable, Text, Encode, ValidLength, Value, PublishHeader, PublishBody, Wrote, At;
    ghost var b := buf[..];
    rc := SerializePublish(buf, buf.Length, p.dup, p.qos, p.retained, p.packetId, topic, p.payload);
    back := p;
    if rc != BUFFER_TOO_SHORT {
      WroteAt(b, buf[..], Frame(PublishHeader(p), PublishBody(p)));
      var dup, qos, retained, packetId, t, payload;
      rc, dup, qos, retained, packetId, t, payload := DeserializePublish(buf, p, Encode(|PublishBody(p)|));
      back := Publish(dup, qos, retained, packetId, t.lenstring.value, payload);
    }
  }

  /** Where everything is in a buffer that starts with a PUBLISH packet. */
  lemma PublishOnWire(b: seq<byte>, p: Publish, e: seq<byte>) returns (at: nat, o: nat, k: nat, end: nat)
    requires Sendable(p) && ValidLength(e) && Value(e) == |PublishBody(p)|
             && At(b, 0, FrameWith(PublishHeader(p), e, PublishBody(p)))
    ensures at == 1 + |e| && o == at + 2 + |p.topic| && k == o + (if p.qos > 0 then 2 else 0)
            && end == at + |PublishBody(p)|
    ensures k + |p.payload| == end <= |b|
    ensures HeaderType(b[0]) == PUBLISH && HeaderDup(b[0]) == p.dup && HeaderQos(b[0]) == p.qos
            && HeaderRetain(b[0]) == p.retained
    ensures Decoded(b[1..]) == (|PublishBody(p)|, |e|) && ValidLength(Field(b[1..]))
    ensures 256 * b[at] as int + b[at + 1] as int == |p.topic| && b[at + 2..o] == p.topic
    ensures p.qos > 0 ==> 256 * b[o] as int + b[o + 1] as int == p.packetId
    ensures b[k..end] == p.payload
  {
    HeaderFields(PUBLISH, p.dup, p.qos, p.retained);
    var body, text := PublishBody(p), TextBytes(p.topic);
    var id: seq<byte> := if p.qos > 0 then IntBytes(p.packetId) else [];
    at := 1 + |e|;
    o := at + 2 + |p.topic|;
    k := o + |id|;
    end := k + |p.payload|;
    assert body == text + id + p.payload && |id| == (if p.qos > 0 then 2 else 0) && end == at + |body|;
    hide Header, HeaderType, HeaderDup, HeaderQos, HeaderRetain, PublishBody, FrameWith, TextBytes, IntBytes, At, Value;
    hide Decoded, Field, ValidLength;
    AtFrame(b, PublishHeader(p), e, body);
    AtSplit(b, at, text + id, k, p.payload, body);
    AtSplit(b, at, text, o, id, text + id);
    AtText(b, at, p.topic);
    if p.qos > 0 {
      AtInt(b, o, p.packetId);
    }
    AtEnd(b, k, p.payload, end);
  }
}
