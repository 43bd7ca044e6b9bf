/** MQTTSubscribeClient.c and MQTTSubscribeServer.c, MQTTUnsubscribeClient.c and MQTTUnsubscribeServer.c: packets that
    carry a list of topic filters. */
module MqttSubscribe {
  import opened Bytes
  import opened MqttPacket
  import opened MqttStrings

  const SUBSCRIBE := 8
  const UNSUBSCRIBE := 10
  const BUFFER_TOO_SHORT := -2

  // ----- lists of items -----

  /** The items of a payload one behind the other. */
  function Joined(items: seq<seq<byte>>): seq<byte> {
    if items == [] then [] else Joined(items[..|items| - 1]) + items[|items| - 1]
  }

  lemma JoinedNext(items: seq<seq<byte>>, k: nat)
    requires k < |items|
    ensures Joined(items[..k + 1]) == Joined(items[..k]) + items[k]
  {
    assert items[..k + 1][..k] == items[..k];
  }

  /** The first items are the start of the whole list. */
  lemma {:induction false} JoinedStart(items: seq<seq<byte>>, k: nat)
    requires k <= |items|
    ensures Joined(items[..k]) <= Joined(items)
    decreases |items|
  {
    if k == |items| {
      assert items[..k] == items;
    } else {
      var front := items[..|items| - 1];
      JoinedStart(front, k);
      assert front[..k] == items[..k];
    }
  }

  /** Item `k` is where the items before it end. */
  lemma ItemAt(b: seq<byte>, o: nat, items: seq<seq<byte>>, k: nat, p: nat)
    requires At(b, o, Joined(items)) && k < |items| && p == o + |Joined(items[..k])|
    ensures At(b, p, items[k]) && p + |items[k]| == o + |Joined(items[..k + 1])| <= o + |Joined(items)|
  {
    JoinedNext(items, k);
    JoinedStart(items, k + 1);
    var whole, upTo := Joined(items), Joined(items[..k + 1]);
    var rest := whole[|upTo|..];
    assert whole == upTo + rest;
    hide Joined, At;
    AtSplit(b, o, upTo, o + |upTo|, rest, whole);
    AtSplit(b, o, Joined(items[..k]), p, items[k], upTo);
  }

  lemma JoinedAll(items: seq<seq<byte>>)
    ensures Joined(items[..0]) == [] && Joined(items[..|items|]) == Joined(items)
  {
    assert items[..|items|] == items && items[..0] == [];
  }

  lemma Assoc(a: seq<byte>, b: seq<byte>, c: seq<byte>)
    ensures a + b + c == a + (b + c)
  {
  }

  /** The next item takes the list further and still fits. */
  lemma ItemRoom(items: seq<seq<byte>>, k: nat)
    requires k < |items|
    ensures |Joined(items[..k + 1])| == |Joined(items[..k])| + |items[k]| <= |Joined(items)|
  {
    JoinedStart(items, k + 1);
    JoinedNext(items, k);
  }

  /** Behind the head and the first items, the next item is written. */
  lemma ItemOn(b: seq<byte>, c: seq<byte>, d: seq<byte>, head: seq<byte>, items: seq<seq<byte>>, k: nat, at: nat)
    requires k < |items| && at == |head| + |Joined(items[..k])|
    requires Wrote(b, c, 0, head + Joined(items[..k])) && Wrote(c, d, at, items[k])
    ensures Wrote(b, d, 0, head + Joined(items[..k + 1]))
  {
    hide *;
    JoinedNext(items, k);
    Assoc(head, Joined(items[..k]), items[k]);
    WroteOn(b, c, d, 0, head + Joined(items[..k]), at, items[k], head + Joined(items[..k + 1]));
  }

  lemma SubscribeHeader(dup: nat)
    ensures Header(SUBSCRIBE, dup, 1, 0) == 130 + 8 * (dup % 2)
  {
  }

  lemma UnsubscribeHeader(dup: nat)
    ensures Header(UNSUBSCRIBE, dup, 1, 0) == 162 + 8 * (dup % 2)
  {
  }

  // ----- subscribe -----

  /** A filter with its requested QoS. */
  function SubscribeItem(f: seq<byte>, q: byte): (r: seq<byte>)
    ensures |r| == 3 + |f|
  {
    TextBytes(f) + [q]
  }

  function SubscribeItems(fs: seq<seq<byte>>, qs: seq<byte>): (r: seq<seq<byte>>)
    requires |fs| == |qs|
    ensures |r| == |fs| && forall i | 0 <= i < |fs| :: r[i] == SubscribeItem(fs[i], qs[i])
  {
    seq(|fs|, i requires 0 <= i < |fs| => SubscribeItem(fs[i], qs[i]))
  }

  /** Variable header and payload of MQTT 3.1.1, section 3.8, or 3.10 for an unsubscribe. */
  function ListBody(packetId: nat, items: seq<seq<byte>>): (r: seq<byte>)
    ensures |r| == 2 + |Joined(items)|
  {
    IntBytes(packetId) + Joined(items)
  }

  function Texts(ss: seq<MqttString>): (r: seq<seq<byte>>)
    ensures |r| == |ss| && forall i | 0 <= i < |ss| :: r[i] == Text(ss[i])
  {
    seq(|ss|, i requires 0 <= i < |ss| => Text(ss[i]))
  }

  predicate AllWritable(ss: seq<MqttString>) {
    forall i | 0 <= i < |ss| :: Writable(ss[i])
  }

  /** MQTTSerialize_subscribeLength: the remaining length of the packet. */
  method SubscribeLength(filters: seq<MqttString>, ghost qs: seq<byte>, ghost packetId: nat) returns (len: nat)
    requires |qs| == |filters| && AllWritable(filters)
    ensures len == |ListBody(packetId, SubscribeItems(Texts(filters), qs))|
  {
    ghost var items := SubscribeItems(Texts(filters), qs);
    JoinedAll(items);
    hide Joined, SubscribeItems, Texts, Text, StrLen;
    len := 2;
    for i := 0 to |filters|
      invariant len == 2 + |Joined(items[..i])|
    {
      JoinedNext(items, i);
      assert Writable(filters[i]) && items[i] == SubscribeItem(Texts(filters)[i], qs[i]);
      len := len + 2 + StrLen(filters[i]) + 1;
    }
  }

  /** One filter and its QoS at the cursor. */
  method WriteSubscription(buf: array<byte>, ptr: nat, f: MqttString, q: byte) returns (p: nat)
    requires ptr + 3 + |Text(f)| <= buf.Length
    modifies buf
    ensures p == ptr + 3 + |Text(f)| && Wrote(old(buf[..]), buf[..], ptr, SubscribeItem(Text(f), q))
  {
    hide *;
    ghost var b := buf[..];
    p := WriteMqttString(buf, ptr, f);
    ghost var c := buf[..];
    p := WriteChar(buf, p, q);
    ItemParts(Text(f), q);
    WroteOn(b, c, buf[..], ptr, TextBytes(Text(f)), p - 1, [q], SubscribeItem(Text(f), q));
  }

  lemma ItemParts(f: seq<byte>, q: byte)
    ensures SubscribeItem(f, q) == TextBytes(f) + [q]
  {
  }

  /** The start of a packet with a list: header, remaining length, packet identifier. */
  function ListHead(header: byte, remLen: nat, packetId: nat): (r: seq<byte>)
    ensures |r| == 3 + |Encode(remLen)|
  {
    [header] + Encode(remLen) + IntBytes(packetId)
  }

  method WriteListHead(buf: array<byte>, header: byte, remLen: nat, packetId: nat) returns (p: nat)
    requires 3 + |Encode(remLen)| <= buf.Length
    modifies buf
    ensures p == 3 + |Encode(remLen)| && Wrote(old(buf[..]), buf[..], 0, ListHead(header, remLen, packetId))
  {
    HeadParts(header, remLen, packetId);
    hide *;
    ghost var b := buf[..];
    p := WriteHead(buf, header, remLen);
    ghost var c, at := buf[..], p;
    p := WriteInt(buf, p, packetId);
    WroteOn(b, c, buf[..], 0, [header] + Encode(remLen), at, IntBytes(packetId), ListHead(header, remLen, packetId));
  }

  lemma HeadParts(header: byte, remLen: nat, packetId: nat)
    ensures ListHead(header, remLen, packetId) == [header] + Encode(remLen) + IntBytes(packetId)
    ensures |[header] + Encode(remLen)| == 1 + |Encode(remLen)|
  {
  }

  /** Head and items together are the packet. */
  lemma ListFrame(header: byte, packetId: nat, items: seq<seq<byte>>)
    ensures var body := ListBody(packetId, items);
            && Frame(header, body) == ListHead(header, |body|, packetId) + Joined(items)
            && |Frame(header, body)| == 1 + |Encode(|body|)| + |body|
  {
    hide Encode, Joined, IntBytes;
    var body := ListBody(packetId, items);
    Assoc([header] + Encode(|body|), IntBytes(packetId), Joined(items));
  }

  /** MQTTSerialize_subscribe. */
  method SerializeSubscribe(buf: array<byte>, buflen: nat, dup: nat, packetId: nat, filters: seq<MqttString>,
                            qs: seq<byte>) returns (rc: int)
    requires buflen <= buf.Length && |qs| == |filters| && AllWritable(filters)
    requires |ListBody(packetId, SubscribeItems(Texts(filters), qs))| <= MAX_LENGTH
    modifies buf
    ensures var body := ListBody(packetId, SubscribeItems(Texts(filters), qs));
            var wire := Frame(Header(SUBSCRIBE, dup, 1, 0), body);
            if PacketLen(|body|) > buflen then rc == BUFFER_TOO_SHORT && buf[..] == old(buf[..])
            else rc == |wire| <= buflen && Wrote(old(buf[..]), buf[..], 0, wire)
    ensures rc != -2 ==> rc > 0 && buf[0] == 130 + 8 * (dup % 2)
  {
    assert BUFFER_TOO_SHORT == -2;
    ghost var items := SubscribeItems(Texts(filters), qs);
    var header := Header(SUBSCRIBE, dup, 1, 0);
    hide *;
    SubscribeHeader(dup);
    var remLen := SubscribeLength(filters, qs, packetId);
    PacketLenExact(remLen);
    if PacketLen(remLen) > buflen {
      return BUFFER_TOO_SHORT;
    }
    ListFrame(header, packetId, items);
    JoinedAll(items);
    ghost var b, head := buf[..], ListHead(header, remLen, packetId);
    var ptr := WriteListHead(buf, header, remLen, packetId);
    EmptyTail(head);
    for i := 0 to |filters|
      invariant ptr == |head| + |Joined(items[..i])|
      invariant Wrote(b, buf[..], 0, head + Joined(items[..i]))
    {
      ItemRoom(items, i);
      ghost var c, at := buf[..], ptr;
      ptr := WriteSubscription(buf, ptr, filters[i], qs[i]);
      ItemOn(b, c, buf[..], head, items, i, at);
    }
    FirstByte(b, buf[..], header, ListBody(packetId, items));
    rc := ptr;
  }

  /** What a SUBSCRIBE or UNSUBSCRIBE packet can carry. */
  predicate ListSendable(dup: nat, packetId: nat, fs: seq<seq<byte>>) {
    dup < 2 && packetId < 0x1_0000 && forall i | 0 <= i < |fs| :: |fs[i]| < 0x1_0000
  }

  /** The fixed part of a packet with a list, in a buffer that starts with it. */
  lemma ListOnWire(b: seq<byte>, kind: nat, dup: nat, packetId: nat, items: seq<seq<byte>>, e: seq<byte>)
    returns (at: nat, end: nat)
    requires kind < 16 && dup < 2 && packetId < 0x1_0000 && ValidLength(e) && Value(e) == |ListBody(packetId, items)|
    requires At(b, 0, FrameWith(Header(kind, dup, 1, 0), e, ListBody(packetId, items)))
    ensures at == 1 + |e| && end == at + 2 + |Joined(items)| <= |b|
    ensures HeaderType(b[0]) == kind && HeaderDup(b[0]) == dup
    ensures Decoded(b[1..]) == (end - at, |e|) && ValidLength(Field(b[1..]))
    ensures 256 * b[at] as int + b[at + 1] as int == packetId && At(b, at + 2, Joined(items))
  {
    HeaderFields(kind, dup, 1, 0);
    hide HeaderType, HeaderDup, Header, Value, Decoded, Field, ValidLength, FrameWith, At, Joined, IntBytes;
    at := 1 + |e|;
    end := at + 2 + |Joined(items)|;
    AtFrame(b, Header(kind, dup, 1, 0), e, ListBody(packetId, items));
    AtSplit(b, at, IntBytes(packetId), at + 2, Joined(items), ListBody(packetId, items));
    AtInt(b, at, packetId);
  }

  /** The first `k` filters of a list have been read into the output array. */
  ghost predicate FiltersRead(out: seq<MqttString>, fs: seq<seq<byte>>, k: nat) {
    k <= |fs| && k <= |out| && forall i | 0 <= i < k :: out[i] == Delimited(fs[i])
  }

  lemma NothingRead(out: seq<MqttString>, fs: seq<seq<byte>>)
    ensures FiltersRead(out, fs, 0)
  {
  }

  lemma OneMoreRead(out: seq<MqttString>, out': seq<MqttString>, fs: seq<seq<byte>>, k: nat)
    requires FiltersRead(out, fs, k) && k < |fs| && k < |out| && out' == out[k := Delimited(fs[k])]
    ensures FiltersRead(out', fs, k + 1)
  {
  }

  /** A list of items that are not empty ends with its last item, not before. */
  lemma MoreLeft(items: seq<seq<byte>>, k: nat)
    requires k <= |items| && forall i | 0 <= i < |items| :: items[i] != []
    ensures |Joined(items[..k])| <= |Joined(items)|
    ensures |Joined(items[..k])| == |Joined(items)| <==> k == |items|
  {
    JoinedAll(items);
    if k < |items| {
      JoinedStart(items, k + 1);
      JoinedNext(items, k);
    }
  }

  /** One turn of the loop of MQTTDeserialize_subscribe. */
  method ReadSubscription(buf: array<byte>, cur: nat, end: nat, topicFilters: array<MqttString>,
                          requestedQoSs: array<byte>, k: nat,
                          ghost o: nat, ghost fs: seq<seq<byte>>, ghost qs: seq<byte>) returns (ok: bool, p: nat)
    requires |fs| == |qs| && k < |fs| <= topicFilters.Length && |fs| <= requestedQoSs.Length && requestedQoSs != buf
    requires |fs[k]| < 0x1_0000 && At(buf[..], o, Joined(SubscribeItems(fs, qs)))
    requires cur == o + |Joined(SubscribeItems(fs, qs)[..k])|
             && end == o + |Joined(SubscribeItems(fs, qs))| <= buf.Length
    requires FiltersRead(topicFilters[..], fs, k) && requestedQoSs[..k] == qs[..k]
    modifies topicFilters, requestedQoSs
    ensures ok && p == o + |Joined(SubscribeItems(fs, qs)[..k + 1])| <= end
    ensures FiltersRead(topicFilters[..], fs, k + 1) && requestedQoSs[..k + 1] == qs[..k + 1]
  {
    ghost var items := SubscribeItems(fs, qs);
    ghost var out := topicFilters[..];
    assert items[k] == SubscribeItem(fs[k], qs[k]);
    hide At, Joined, SubscribeItems, FiltersRead, Delimited, TextBytes;
    ItemAt(buf[..], o, items, k, cur);
    AtSplit(buf[..], cur, TextBytes(fs[k]), cur + 2 + |fs[k]|, [qs[k]], items[k]);
    AtText(buf[..], cur, fs[k]);
    AtByte(buf[..], cur + 2 + |fs[k]|, qs[k]);
    var f;
    ok, f, p := ReadLenString(buf, cur, end);
    topicFilters[k] := f;
    OneMoreRead(out, topicFilters[..], fs, k);
    if p >= end {
      ok := false;
    } else {
      requestedQoSs[k] := buf[p];
      p := p + 1;
    }
  }

  /** MQTTDeserialize_subscribe on a buffer that starts with a SUBSCRIBE packet, with room for its filters. */
  method DeserializeSubscribe(buf: array<byte>, topicFilters: array<MqttString>, requestedQoSs: array<byte>,
                              ghost d: nat, ghost id: nat, ghost fs: seq<seq<byte>>, ghost qs: seq<byte>,
                                ghost e: seq<byte>)
    returns (rc: int, dup: nat, packetId: nat, count: nat)
    requires |qs| == |fs| <= topicFilters.Length && |fs| <= requestedQoSs.Length && requestedQoSs != buf
    requires ListSendable(d, id, fs) && ValidLength(e) && Value(e) == |ListBody(id, SubscribeItems(fs, qs))|
    requires At(buf[..], 0, FrameWith(Header(SUBSCRIBE, d, 1, 0), e, ListBody(id, SubscribeItems(fs, qs))))
    modifies topicFilters, requestedQoSs
    ensures rc == 1 && dup == d && packetId == id && count == |fs|
    ensures FiltersRead(topicFilters[..], fs, count) && requestedQoSs[..count] == qs
  {
    assert SUBSCRIBE == 8;
    hide *;
    ghost var items := SubscribeItems(fs, qs);
    SentBounds(d, id, fs);
    rc, dup, packetId, count := -1, 0, 0, 0;
    ghost var at, last := ListOnWire(buf[..], SUBSCRIBE, d, id, items, e);
    if HeaderType(buf[0]) == SUBSCRIBE {
      dup := HeaderDup(buf[0]);
      var len, mylen := DecodeBuf(buf, 1);
      rc := len;
      var cur := 1 + len;
      var end := cur + mylen;
      packetId, cur := ReadInt(buf, cur);
      var ok;
      ok, count := ReadSubscriptions(buf, cur, end, topicFilters, requestedQoSs, fs, qs);
      if ok {
        rc := 1;
      }
    }
  }

  lemma SentBounds(dup: nat, packetId: nat, fs: seq<seq<byte>>)
    requires ListSendable(dup, packetId, fs)
    ensures dup < 2 && packetId < 0x1_0000 && forall i | 0 <= i < |fs| :: |fs[i]| < 0x1_0000
  {
  }

  /** Its loop over the filters. */
  method ReadSubscriptions(buf: array<byte>, from: nat, end: nat, topicFilters: array<MqttString>,
                           requestedQoSs: array<byte>,
                           ghost fs: seq<seq<byte>>, ghost qs: seq<byte>) returns (ok: bool, count: nat)
    requires |qs| == |fs| <= topicFilters.Length && |fs| <= requestedQoSs.Length && requestedQoSs != buf
    requires At(buf[..], from, Joined(SubscribeItems(fs, qs)))
             && end == from + |Joined(SubscribeItems(fs, qs))| <= buf.Length
    requires forall i | 0 <= i < |fs| :: |fs[i]| < 0x1_0000
    modifies topicFilters, requestedQoSs
    ensures ok && count == |fs| && FiltersRead(topicFilters[..], fs, count) && requestedQoSs[..count] == qs
  {
    hide *;
    ghost var items := SubscribeItems(fs, qs);
    ok, count := true, 0;
    var cur := from;
    JoinedAll(items);
    NothingRead(topicFilters[..], fs);
    MoreLeft(items, 0);
    while cur < end && ok
      invariant count <= |fs| && ok
      invariant cur == from + |Joined(items[..count])| <= end
      invariant count == |fs| <==> cur == end
      invariant FiltersRead(topicFilters[..], fs, count) && requestedQoSs[..count] == qs[..count]
      decreases |fs| - count
    {
      ok, cur := ReadSubscription(buf, cur, end, topicFilters, requestedQoSs, count, from, fs, qs);
      count := count + 1;
      MoreLeft(items, count);
    }
  }

  // ----- unsubscribe -----

  function UnsubscribeItems(fs: seq<seq<byte>>): (r: seq<seq<byte>>)
    ensures |r| == |fs| && forall i | 0 <= i < |fs| :: r[i] == TextBytes(fs[i])
  {
    seq(|fs|, i requires 0 <= i < |fs| => TextBytes(fs[i]))
  }

  /** MQTTSerialize_unsubscribeLength. */
  method UnsubscribeLength(filters: seq<MqttString>, ghost packetId: nat) returns (len: nat)
    requires AllWritable(filters)
    ensures len == |ListBody(packetId, UnsubscribeItems(Texts(filters)))|
  {
    ghost var items := UnsubscribeItems(Texts(filters));
    JoinedAll(items);
    hide Joined, UnsubscribeItems, Texts, Text, StrLen;
    len := 2;
    for i := 0 to |filters|
      invariant len == 2 + |Joined(items[..i])|
    {
      JoinedNext(items, i);
      assert Writable(filters[i]) && items[i] == TextBytes(Texts(filters)[i]);
      len := len + 2 + StrLen(filters[i]);
    }
  }

  /** MQTTSerialize_unsubscribe. */
  method SerializeUnsubscribe(buf: array<byte>, buflen: nat, dup: nat, packetId: nat, filters: seq<MqttString>)
    returns (rc: int)
    requires buflen <= buf.Length && AllWritable(filters)
    requires |ListBody(packetId, UnsubscribeItems(Texts(filters)))| <= MAX_LENGTH
    modifies buf
    ensures var body := ListBody(packetId, UnsubscribeItems(Texts(filters)));
            var wire := Frame(Header(UNSUBSCRIBE, dup, 1, 0), body);
            if PacketLen(|body|) > buflen then rc == BUFFER_TOO_SHORT && buf[..] == old(buf[..])
            else rc == |wire| <= buflen && Wrote(old(buf[..]), buf[..], 0, wire)
    ensures rc != -2 ==> rc > 0 && buf[0] == 162 + 8 * (dup % 2)
  {
    assert BUFFER_TOO_SHORT == -2;
    ghost var items := UnsubscribeItems(Texts(filters));
    var header := Header(UNSUBSCRIBE, dup, 1, 0);
    hide *;
    UnsubscribeHeader(dup);
    var remLen := UnsubscribeLength(filters, packetId);
    PacketLenExact(remLen);
    if PacketLen(remLen) > buflen {
      return BUFFER_TOO_SHORT;
    }
    ListFrame(header, packetId, items);
    JoinedAll(items);
    ghost var b, head := buf[..], ListHead(header, remLen, packetId);
    var ptr := WriteListHead(buf, header, remLen, packetId);
    EmptyTail(head);
    for i := 0 to |filters|
      invariant ptr == |head| + |Joined(items[..i])|
      invariant Wrote(b, buf[..], 0, head + Joined(items[..i]))
    {
      ItemRoom(items, i);
      ghost var c, at := buf[..], ptr;
      ptr := WriteMqttString(buf, ptr, filters[i]);
      ItemOn(b, c, buf[..], head, items, i, at);
    }
    FirstByte(b, buf[..], header, ListBody(packetId, items));
    rc := ptr;
  }

  /** MQTTDeserialize_unsubscribe on a buffer that starts with an UNSUBSCRIBE packet, with room for its filters. */
  method DeserializeUnsubscribe(buf: array<byte>, topicFilters: array<MqttString>,
                                ghost d: nat, ghost id: nat, ghost fs: seq<seq<byte>>, ghost e: seq<byte>)
    returns (rc: nat, dup: nat, packetId: nat, count: nat)
    requires |fs| <= topicFilters.Length
    requires ListSendable(d, id, fs) && ValidLength(e) && Value(e) == |ListBody(id, UnsubscribeItems(fs))|
    requires At(buf[..], 0, FrameWith(Header(UNSUBSCRIBE, d, 1, 0), e, ListBody(id, UnsubscribeItems(fs))))
    modifies topicFilters
    ensures rc == 1 && dup == d && packetId == id && count == |fs| && FiltersRead(topicFilters[..], fs, count)
  {
    assert UNSUBSCRIBE == 10;
    hide *;
    ghost var items := UnsubscribeItems(fs);
    SentBounds(d, id, fs);
    rc, dup, packetId, count := 0, 0, 0, 0;
    ghost var at, last := ListOnWire(buf[..], UNSUBSCRIBE, d, id, items, e);
    if HeaderType(buf[0]) == UNSUBSCRIBE {
      dup := HeaderDup(buf[0]);
      var len, mylen := DecodeBuf(buf, 1);
      rc := len;
      var cur := 1 + len;
      var end := cur + mylen;
      packetId, cur := ReadInt(buf, cur);
      var ok;
      ok, count := ReadFilters(buf, cur, end, topicFilters, fs);
      if ok {
        rc := 1;
      }
    }
  }

  /** Its loop over the filters. */
  method ReadFilters(buf: array<byte>, from: nat, end: nat, topicFilters: array<MqttString>, ghost fs: seq<seq<byte>>)
    returns (ok: bool, count: nat)
    requires |fs| <= topicFilters.Length && forall i | 0 <= i < |fs| :: |fs[i]| < 0x1_0000
    requires At(buf[..], from, Joined(UnsubscribeItems(fs)))
             && end == from + |Joined(UnsubscribeItems(fs))| <= buf.Length
    modifies topicFilters
    ensures ok && count == |fs| && FiltersRead(topicFilters[..], fs, count)
  {
    hide *;
    ghost var items := UnsubscribeItems(fs);
    ok, count := true, 0;
    var cur := from;
    JoinedAll(items);
    NothingRead(topicFilters[..], fs);
    MoreLeft(items, 0);
    while cur < end && ok
      invariant count <= |fs| && ok
      invariant cur == from + |Joined(items[..count])| <= end
      invariant count == |fs| <==> cur == end
      invariant FiltersRead(topicFilters[..], fs, count)
      decreases |fs| - count
    {
      ok, cur := ReadFilter(buf, cur, end, topicFilters, count, from, fs);
      count := count + 1;
      MoreLeft(items, count);
    }
  }

  /** One turn of the loop. */
  method ReadFilter(buf: array<byte>, cur: nat, end: nat, topicFilters: array<MqttString>, k: nat, ghost o: nat,
                    ghost fs: seq<seq<byte>>)
    returns (ok: bool, p: nat)
    requires k < |fs| <= topicFilters.Length && |fs[k]| < 0x1_0000 && At(buf[..], o, Joined(UnsubscribeItems(fs)))
    requires cur == o + |Joined(UnsubscribeItems(fs)[..k])| && end == o + |Joined(UnsubscribeItems(fs))| <= buf.Length
    requires FiltersRead(topicFilters[..], fs, k)
    modifies topicFilters
    ensures ok && p == o + |Joined(UnsubscribeItems(fs)[..k + 1])| <= end && FiltersRead(topicFilters[..], fs, k + 1)
  {
    ghost var items := UnsubscribeItems(fs);
    ghost var out := topicFilters[..];
    assert items[k] == TextBytes(fs[k]);
    hide At, Joined, UnsubscribeItems, FiltersRead, Delimited, TextBytes;
    ItemAt(buf[..], o, items, k, cur);
    AtText(buf[..], cur, fs[k]);
    var f;
    ok, f, p := ReadLenString(buf, cur, end);
    topicFilters[k] := f;
    OneMoreRead(out, topicFilters[..], fs, k);
  }

  // ----- on the wire -----

  lemma JoinedOne(x: seq<byte>)
    ensures Joined([x]) == x
  {
    assert [x][..0] == [];
  }

  lemma JoinedTwo(x: seq<byte>, y: seq<byte>)
    ensures Joined([x, y]) == x + y
  {
    JoinedOne(x);
    assert [x, y][..1] == [x];
  }

  /** The packet of the example in section 3.8.3: a/b with QoS 1, c/d with QoS 2. */
  lemma SubscribeWire()
    ensures var items := SubscribeItems([[0x61, 0x2F, 0x62], [0x63, 0x2F, 0x64]], [1, 2]);
            Frame(Header(SUBSCRIBE, 0, 1, 0), ListBody(10, items)) ==
            [0x82, 0x0E, 0x00, 0x0A, 0x00, 0x03, 0x61, 0x2F, 0x62, 0x01, 0x00, 0x03, 0x63, 0x2F, 0x64, 0x02]
  {
    var f: seq<byte>, g: seq<byte> := [0x61, 0x2F, 0x62], [0x63, 0x2F, 0x64];
    var items := SubscribeItems([f, g], [1, 2]);
    assert items == [SubscribeItem(f, 1), SubscribeItem(g, 2)];
    ShortText(f);
    ShortText(g);
    SubscribeHeader(0);
    hide SubscribeItems, TextBytes, ListBody, Frame, Header;
    TwoItems(0x82, items, SubscribeItem(f, 1), SubscribeItem(g, 2));
  }

  /** A packet with identifier 10 and two short items. */
  lemma TwoItems(header: byte, items: seq<seq<byte>>, x: seq<byte>, y: seq<byte>)
    requires items == [x, y] && |x| + |y| < 120
    ensures Frame(header, ListBody(10, items)) == [header, 2 + |x| + |y|] + [0, 10] + x + y
  {
    JoinedTwo(x, y);
    assert IntBytes(10) == [0, 10];
    hide Joined, IntBytes, Frame;
    ShortFrame(header, ListBody(10, items));
  }

  /** The packet of the example in section 3.10.3: a/b and c/d. */
  lemma UnsubscribeWire()
    ensures var items := UnsubscribeItems([[0x61, 0x2F, 0x62], [0x63, 0x2F, 0x64]]);
            Frame(Header(UNSUBSCRIBE, 0, 1, 0), ListBody(10, items)) ==
            [0xA2, 0x0C, 0x00, 0x0A, 0x00, 0x03, 0x61, 0x2F, 0x62, 0x00, 0x03, 0x63, 0x2F, 0x64]
  {
    var f: seq<byte>, g: seq<byte> := [0x61, 0x2F, 0x62], [0x63, 0x2F, 0x64];
    var items := UnsubscribeItems([f, g]);
    assert items == [TextBytes(f), TextBytes(g)];
    ShortText(f);
    ShortText(g);
    UnsubscribeHeader(0);
    hide UnsubscribeItems, TextBytes, ListBody, Frame, Header;
    TwoItems(0xA2, items, TextBytes(f), TextBytes(g));
  }

  // ----- round trips -----

  lemma ListEncoding(packetId: nat, items: seq<seq<byte>>)
    requires |ListBody(packetId, items)| <= MAX_LENGTH
    ensures var n := |ListBody(packetId, items)|; ValidLength(Encode(n)) && Value(Encode(n)) == n
  {
    EncodeLength(|ListBody(packetId, items)|);
    EncodeValue(|ListBody(packetId, items)|);
  }

  /** Serialised, then deserialised: the filters come back in order, each with its QoS. */
  method EchoSubscribe(buf: array<byte>, dup: nat, packetId: nat, filters: seq<MqttString>, qs: seq<byte>,
                       topicFilters: array<MqttString>, requestedQoSs: array<byte>)
    returns (rc: int, dup': nat, packetId': nat, count: nat)
    requires |qs| == |filters| <= topicFilters.Length && |filters| <= requestedQoSs.Length && requestedQoSs != buf
    requires AllWritable(filters) && ListSendable(dup, packetId, Texts(filters))
    requires |ListBody(packetId, SubscribeItems(Texts(filters), qs))| <= MAX_LENGTH
    modifies buf, topicFilters, requestedQoSs
    ensures rc == BUFFER_TOO_SHORT <==> PacketLen(|ListBody(packetId, SubscribeItems(Texts(filters), qs))|) > buf.Length
    ensures rc != BUFFER_TOO_SHORT ==> rc == 1 && dup' == dup && packetId' == packetId && count == |filters|
    ensures rc != BUFFER_TOO_SHORT ==>
              FiltersRead(topicFilters[..], Texts(filters), count)
              && requestedQoSs[..count] == qs
  {
    assert BUFFER_TOO_SHORT == -2;
    hide *;
    ghost var b, items := buf[..], SubscribeItems(Texts(filters), qs);
    ListEncoding(packetId, items);
    rc := SerializeSubscribe(buf, buf.Length, dup, packetId, filters, qs);
    dup', packetId', count := 0, 0, 0;
    if rc >= 0 {
      FrameForm(Header(SUBSCRIBE, dup, 1, 0), ListBody(packetId, items));
      WroteAt(b, buf[..], Frame(Header(SUBSCRIBE, dup, 1, 0), ListBody(packetId, items)));
      rc, dup', packetId',
        count := DeserializeSubscribe(buf, topicFilters, requestedQoSs, dup, packetId, Texts(filters), qs,
                                                         Encode(|ListBody(packetId, items)|));
    }
  }

  lemma FrameForm(header: byte, body: seq<byte>)
    ensures Frame(header, body) == FrameWith(header, Encode(|body|), body)
  {
  }

  /** Likewise for an unsubscribe. */
  method EchoUnsubscribe(buf: array<byte>, dup: nat, packetId: nat, filters: seq<MqttString>,
                         topicFilters: array<MqttString>)
    returns (rc: int, dup': nat, packetId': nat, count: nat)
    requires |filters| <= topicFilters.Length
    requires AllWritable(filters) && ListSendable(dup, packetId, Texts(filters))
    requires |ListBody(packetId, UnsubscribeItems(Texts(filters)))| <= MAX_LENGTH
    modifies buf, topicFilters
    ensures rc == BUFFER_TOO_SHORT <==> PacketLen(|ListBody(packetId, UnsubscribeItems(Texts(filters)))|) > buf.Length
    ensures rc != BUFFER_TOO_SHORT ==> rc == 1 && dup' == dup && packetId' == packetId && count == |filters|
    ensures rc != BUFFER_TOO_SHORT ==> FiltersRead(topicFilters[..], Texts(filters), count)
  {
    assert BUFFER_TOO_SHORT == -2;
    hide *;
    ghost var b, items := buf[..], UnsubscribeItems(Texts(filters));
    ListEncoding(packetId, items);
    rc := SerializeUnsubscribe(buf, buf.Length, dup, packetId, filters);
    dup', packetId', count := 0, 0, 0;
    if rc >= 0 {
      FrameForm(Header(UNSUBSCRIBE, dup, 1, 0), ListBody(packetId, items));
      WroteAt(b, buf[..], Frame(Header(UNSUBSCRIBE, dup, 1, 0), ListBody(packetId, items)));
      rc, dup', packetId',
        count := DeserializeUnsubscribe(buf, topicFilters, dup, packetId, Texts(filters),
          Encode(|ListBody(packetId, items)|));
    }
  }
}
