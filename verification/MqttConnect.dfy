/** MQTTConnectClient.c and MQTTConnectServer.c: the CONNECT packet with its optional fields. */
module MqttConnect {
  import opened Bytes
  import opened MqttPacket
  import opened MqttStrings
  import opened MqttSubscribe

  const CONNECT := 1
  const MQISDP: seq<byte> := [0x4D, 0x51, 0x49, 0x73, 0x64, 0x70]
  const MQTT: seq<byte> := [0x4D, 0x51, 0x54, 0x54]

  datatype WillOptions = WillOptions(topicName: MqttString, message: MqttString, retained: nat, qos: nat)

  /** MQTTPacket_connectData. */
  datatype ConnectData = ConnectData(version: nat, clientId: MqttString, keepAlive: nat, cleansession: nat,
    willFlag: bool,
                                     will: WillOptions, username: MqttString, password: MqttString)

  predicate Present(s: MqttString) {
    s.cstring.Some? || s.lenstring.Some?
  }

  /** What a CONNECT packet can carry: versions 3 and 4, fields within their bits. */
  predicate Connectable(d: ConnectData) {
    && (d.version == 3 || d.version == 4) && d.keepAlive < 0x1_0000 && d.cleansession < 2
    && d.will.retained < 2 && d.will.qos < 4
    && Writable(d.clientId) && Writable(d.will.topicName) && Writable(d.will.message) && Writable(d.username)
       && Writable(d.password)
  }

  /** The packets a server takes that is told of `slack` bytes behind them: a password only with a user name, and,
      unless there is slack, the last of the two not empty. An empty user name in front of a password passes. */
  predicate Credentialed(d: ConnectData, slack: nat) {
    && (Present(d.password) ==> Present(d.username) && (Text(d.password) != [] || slack > 0))
    && (Present(d.username) && !Present(d.password) ==> Text(d.username) != [] || slack > 0)
  }

  /** The standard allows an empty user name (MQTT 3.1.1, section 3.1.3.4); a packet that has one, and no password, is
      not taken, though it is with a password behind it. */
  lemma EmptyUser()
    ensures var d := ConnectData(4, Delimited([]), 0, 1, false, WillOptions(Delimited([]), Delimited([]), 0, 0),
            Delimited([]), MqttString(None, None));
            && Connectable(d) && !Credentialed(d, 0) && Credentialed(d.(password := Delimited([1])), 0)
  {
    assert Text(Delimited([1])) == [1];
  }

  /** The strings of the payload, in the order of MQTT 3.1.1, section 3.1.3. */
  function Fields(d: ConnectData): (r: seq<seq<byte>>)
    ensures |r| >= 1 && r[0] == Text(d.clientId)
  {
    [Text(d.clientId)]
    + (if d.willFlag then [Text(d.will.topicName), Text(d.will.message)] else [])
    + (if Present(d.username) then [Text(d.username)] else [])
    + (if Present(d.password) then [Text(d.password)] else [])
  }

  /** The connect flags of section 3.1.2.3; the will bits stay zero without a will. */
  function FlagsByte(d: ConnectData): byte {
    d.cleansession % 2 * 2
    + (if d.willFlag then 4 + d.will.qos % 4 * 8 + d.will.retained % 2 * 32 else 0)
    + (if Present(d.password) then 64 else 0) + (if Present(d.username) then 128 else 0)
  }

  function ProtocolName(version: nat): seq<byte> {
    if version == 4 then MQTT else MQISDP
  }

  /** The variable header. */
  function VariableHeader(d: ConnectData): (r: seq<byte>)
    ensures |r| == if d.version == 4 then 10 else 12
  {
    TextBytes(ProtocolName(d.version)) + [if d.version == 4 then 4 else 3] + [FlagsByte(d)] + IntBytes(d.keepAlive)
  }

  function ConnectBody(d: ConnectData): (r: seq<byte>)
    ensures |r| == |VariableHeader(d)| + |Joined(UnsubscribeItems(Fields(d)))|
  {
    VariableHeader(d) + Joined(UnsubscribeItems(Fields(d)))
  }

  // ----- serialising -----

  /** MQTTSerialize_connectLength. */
  method ConnectLength(d: ConnectData) returns (len: nat)
    requires Connectable(d)
    ensures len == |ConnectBody(d)| <= MAX_LENGTH
  {
    FieldsLength(d);
    hide Joined, UnsubscribeItems, Fields, VariableHeader, ConnectBody;
    len := 0;
    if d.version == 3 {
      len := 12;
    } else if d.version == 4 {
      len := 10;
    }
    len := len + StrLen(d.clientId) + 2;
    if d.willFlag {
      len := len + StrLen(d.will.topicName) + 2 + StrLen(d.will.message) + 2;
    }
    if Present(d.username) {
      len := len + StrLen(d.username) + 2;
    }
    if Present(d.password) {
      len := len + StrLen(d.password) + 2;
    }
  }

  lemma FieldsLength(d: ConnectData)
    ensures |Joined(UnsubscribeItems(Fields(d)))| == 2 + |Text(d.clientId)|
            + (if d.willFlag then 4 + |Text(d.will.topicName)| + |Text(d.will.message)| else 0)
            + (if Present(d.username) then 2 + |Text(d.username)| else 0)
            + (if Present(d.password) then 2 + |Text(d.password)| else 0)
  {
    hide Text;
    var will := if d.willFlag then [Text(d.will.topicName), Text(d.will.message)] else [];
    var user := if Present(d.username) then [Text(d.username)] else [];
    var f1 := [Text(d.clientId)];
    var f2 := f1 + will;
    var f3 := f2 + user;
    FieldAdded([], Text(d.clientId));
    assert [] + [Text(d.clientId)] == f1;
    if d.willFlag {
      FieldAdded(f1, Text(d.will.topicName));
      FieldAdded(f1 + [Text(d.will.topicName)], Text(d.will.message));
      assert f1 + [Text(d.will.topicName)] + [Text(d.will.message)] == f2;
    } else {
      assert f2 == f1;
    }
    if Present(d.username) {
      FieldAdded(f2, Text(d.username));
    } else {
      assert f3 == f2;
    }
    if Present(d.password) {
      FieldAdded(f3, Text(d.password));
    } else {
      assert f3 + [] == f3;
    }
  }

  lemma FieldAdded(fs: seq<seq<byte>>, f: seq<byte>)
    ensures |Joined(UnsubscribeItems(fs + [f]))| == |Joined(UnsubscribeItems(fs))| + 2 + |f|
    ensures |Joined(UnsubscribeItems([]))| == 0
  {
    hide TextBytes;
    var items := UnsubscribeItems(fs + [f]);
    assert items[..|fs|] == UnsubscribeItems(fs) && items[|fs|] == TextBytes(f);
    assert UnsubscribeItems([]) == [];
  }

  /** Field `k` written behind the fields before it. */
  method WriteField(buf: array<byte>, ptr: nat, s: MqttString, ghost b: seq<byte>, ghost front: seq<byte>,
                    ghost fs: seq<seq<byte>>, ghost k: nat)
    returns (p: nat)
    requires k < |fs| && Text(s) == fs[k] && |front + Joined(UnsubscribeItems(fs))| <= buf.Length
    requires ptr == |front + Joined(UnsubscribeItems(fs)[..k])|
             && Wrote(b, buf[..], 0, front + Joined(UnsubscribeItems(fs)[..k]))
    modifies buf
    ensures p == |front + Joined(UnsubscribeItems(fs)[..k + 1])|
            && Wrote(b, buf[..], 0, front + Joined(UnsubscribeItems(fs)[..k + 1]))
  {
    hide *;
    ghost var items := UnsubscribeItems(fs);
    JoinedStart(items, k + 1);
    JoinedNext(items, k);
    ghost var c := buf[..];
    p := WriteMqttString(buf, ptr, s);
    Assoc(front, Joined(items[..k]), items[k]);
    WroteOn(b, c, buf[..], 0, front + Joined(items[..k]), ptr, items[k], front + Joined(items[..k + 1]));
  }

  /** Header, remaining length, protocol name, version, flags and keep-alive time. */
  function ConnectFront(d: ConnectData): (r: seq<byte>)
    ensures |r| == 1 + |Encode(|ConnectBody(d)|)| + |VariableHeader(d)|
  {
    [Header(CONNECT, 0, 0, 0)] + Encode(|ConnectBody(d)|) + VariableHeader(d)
  }

  method WriteVariableHeader(buf: array<byte>, ptr: nat, d: ConnectData) returns (p: nat)
    requires Connectable(d) && ptr + |VariableHeader(d)| <= buf.Length
    modifies buf
    ensures p == ptr + |VariableHeader(d)| && Wrote(old(buf[..]), buf[..], ptr, VariableHeader(d))
  {
    ghost var b := buf[..];
    ghost var name, v: byte := TextBytes(ProtocolName(d.version)), if d.version == 4 then 4 else 3;
    HeaderParts(d);
    hide VariableHeader, TextBytes, IntBytes, FlagsByte, Wrote;
    if d.version == 4 {
      p := WriteText(buf, ptr, MQTT);
      ghost var c := buf[..];
      p := WriteChar(buf, p, 4);
      WroteOn(b, c, buf[..], ptr, name, p - 1, [v], name + [v]);
    } else {
      p := WriteText(buf, ptr, MQISDP);
      ghost var c := buf[..];
      p := WriteChar(buf, p, 3);
      WroteOn(b, c, buf[..], ptr, name, p - 1, [v], name + [v]);
    }
    ghost var c := buf[..];
    p := WriteChar(buf, p, FlagsByte(d));
    WroteOn(b, c, buf[..], ptr, name + [v], p - 1, [FlagsByte(d)], name + [v] + [FlagsByte(d)]);
    c := buf[..];
    p := WriteInt(buf, p, d.keepAlive);
    WroteOn(b, c, buf[..], ptr, name + [v] + [FlagsByte(d)], p - 2, IntBytes(d.keepAlive), VariableHeader(d));
  }

  lemma HeaderParts(d: ConnectData)
    requires Connectable(d)
    ensures var v: byte := if d.version == 4 then 4 else 3;
            VariableHeader(d) == TextBytes(ProtocolName(d.version)) + [v] + [FlagsByte(d)] + IntBytes(d.keepAlive)
    ensures d.version != 4 ==> d.version == 3
  {
  }

  /** MQTTSerialize_connect. */
  method SerializeConnect(buf: array<byte>, buflen: nat, d: ConnectData) returns (rc: int)
    requires buflen <= buf.Length && Connectable(d)
    modifies buf
    ensures var wire := Frame(Header(CONNECT, 0, 0, 0), ConnectBody(d));
            if PacketLen(|ConnectBody(d)|) > buflen then rc == BUFFER_TOO_SHORT && buf[..] == old(buf[..])
            else rc == |wire| <= buflen && Wrote(old(buf[..]), buf[..], 0, wire)
    ensures rc != -2 ==>
              var v := 1 + |Encode(|ConnectBody(d)|)| + if d.version == 4 then 6 else 8;
              && v + 4 <= buf.Length && buf[0] == 0x10
              && buf[v] as int == d.version && FlagBits(buf[v + 1], d)
              && 256 * buf[v + 2] as int + buf[v + 3] as int == d.keepAlive
  {
    assert CONNECT == 1 && BUFFER_TOO_SHORT == -2;
    hide *;
    var len := ConnectLength(d);
    PacketLenExact(len);
    if PacketLen(len) > buflen {
      return BUFFER_TOO_SHORT;
    }
    ghost var b, front := buf[..], ConnectFront(d);
    ConnectParts(d);
    var ptr := WriteHead(buf, Header(CONNECT, 0, 0, 0), len);
    ghost var c, at := buf[..], ptr;
    ptr := WriteVariableHeader(buf, ptr, d);
    WroteOn(b, c, buf[..], 0, [Header(CONNECT, 0, 0, 0)] + Encode(len), at, VariableHeader(d), front);
    ptr := WriteStrings(buf, ptr, d, b);
    ConnectFixed(b, buf[..], d);
    rc := ptr;
  }

  /** The fixed fields of a packet that was written. */
  lemma ConnectFixed(b: seq<byte>, c: seq<byte>, d: ConnectData)
    requires Connectable(d) && |ConnectBody(d)| <= MAX_LENGTH
    requires Wrote(b, c, 0, Frame(Header(CONNECT, 0, 0, 0), ConnectBody(d)))
    ensures var v := 1 + |Encode(|ConnectBody(d)|)| + if d.version == 4 then 6 else 8;
            && v + 4 <= |c| && c[0] == 0x10 && c[v] as int == d.version && FlagBits(c[v + 1], d)
            && 256 * c[v + 2] as int + c[v + 3] as int == d.keepAlive
  {
    assert CONNECT == 1;
    hide *;
    ConnectFigures(d);
    EncodeLength(|ConnectBody(d)|);
    EncodeValue(|ConnectBody(d)|);
    FrameForm(Header(CONNECT, 0, 0, 0), ConnectBody(d));
    FirstByte(b, c, Header(CONNECT, 0, 0, 0), ConnectBody(d));
    WroteAt(b, c, Frame(Header(CONNECT, 0, 0, 0), ConnectBody(d)));
    FlagFields(d);
    var at, v, o, end := ConnectOnWire(c, d, Encode(|ConnectBody(d)|));
  }

  lemma ConnectFigures(d: ConnectData)
    ensures Header(CONNECT, 0, 0, 0) == 0x10 && |ProtocolName(d.version)| == if d.version == 4 then 4 else 6
  {
  }

  /** A packet with all optional fields, byte by byte. */
  lemma ConnectWire()
    ensures var d := ConnectData(4, Delimited([0x63]), 10, 1, true,
            WillOptions(Delimited([0x74]), Delimited([0x6D]), 1, 2), Delimited([0x75]), Delimited([0x70]));
            Frame(Header(CONNECT, 0, 0, 0), ConnectBody(d)) ==
            [0x10, 0x19, 0x00, 0x04, 0x4D, 0x51, 0x54, 0x54, 0x04, 0xF6, 0x00, 0x0A, 0x00, 0x01, 0x63,
             0x00, 0x01, 0x74, 0x00, 0x01, 0x6D, 0x00, 0x01, 0x75, 0x00, 0x01, 0x70]
  {
    var d := ConnectData(4, Delimited([0x63]), 10, 1, true, WillOptions(Delimited([0x74]), Delimited([0x6D]), 1, 2),
      Delimited([0x75]), Delimited([0x70]));
    FrontOnWire(d);
    FieldsOnWire(d);
    BodyParts(d);
    ShortWire(VariableHeader(d), Joined(UnsubscribeItems(Fields(d))));
    hide *;
  }

  lemma ShortWire(head: seq<byte>, rest: seq<byte>)
    requires head == [0x00, 0x04, 0x4D, 0x51, 0x54, 0x54, 0x04, 0xF6, 0x00, 0x0A]
    requires rest == [0x00, 0x01, 0x63, 0x00, 0x01, 0x74, 0x00, 0x01, 0x6D, 0x00, 0x01, 0x75, 0x00, 0x01, 0x70]
    ensures Frame(0x10, head + rest) ==
            [0x10, 0x19, 0x00, 0x04, 0x4D, 0x51, 0x54, 0x54, 0x04, 0xF6, 0x00, 0x0A, 0x00, 0x01, 0x63,
             0x00, 0x01, 0x74, 0x00, 0x01, 0x6D, 0x00, 0x01, 0x75, 0x00, 0x01, 0x70]
  {
    hide *;
    ShortFrame(0x10, head + rest);
  }

  /** Header, protocol name, version 4, all flags with will QoS 2, keep-alive time 10. */
  lemma FrontOnWire(d: ConnectData)
    requires d.willFlag && d.will.qos == 2 && d.will.retained == 1 && d.cleansession == 1 && d.keepAlive == 10
             && d.version == 4 && Present(d.username) && Present(d.password)
    ensures VariableHeader(d) == [0x00, 0x04, 0x4D, 0x51, 0x54, 0x54, 0x04, 0xF6, 0x00, 0x0A]
    ensures Header(CONNECT, 0, 0, 0) == 0x10
  {
    ShortText(MQTT);
    assert FlagsByte(d) == 0xF6 && IntBytes(10) == [0, 10];
    hide FlagsByte, IntBytes, TextBytes, Present;
  }

  lemma FieldsOnWire(d: ConnectData)
    requires d.willFlag && d.clientId == Delimited([0x63]) && d.will.topicName == Delimited([0x74])
             && d.will.message == Delimited([0x6D]) && d.username == Delimited([0x75])
             && d.password == Delimited([0x70])
    ensures Joined(UnsubscribeItems(Fields(d))) ==
            [0x00, 0x01, 0x63, 0x00, 0x01, 0x74, 0x00, 0x01, 0x6D, 0x00, 0x01, 0x75, 0x00, 0x01, 0x70]
  {
    var a: seq<byte>, b: seq<byte>, c: seq<byte>, u: seq<byte>, p: seq<byte> := [0x63], [0x74], [0x6D], [0x75], [0x70];
    assert Fields(d) == [a, b, c, u, p];
    assert UnsubscribeItems(Fields(d)) == [TextBytes(a), TextBytes(b), TextBytes(c), TextBytes(u), TextBytes(p)];
    ShortText(a);
    ShortText(b);
    ShortText(c);
    ShortText(u);
    ShortText(p);
    hide TextBytes, Fields, UnsubscribeItems, Joined;
    JoinedFive(TextBytes(a), TextBytes(b), TextBytes(c), TextBytes(u), TextBytes(p));
  }

  lemma JoinedFive(a: seq<byte>, b: seq<byte>, c: seq<byte>, d: seq<byte>, e: seq<byte>)
    ensures Joined([a, b, c, d, e]) == a + b + c + d + e
  {
    JoinedTwo(a, b);
    assert [a, b, c][..2] == [a, b] && [a, b, c, d][..3] == [a, b, c] && [a, b, c, d, e][..4] == [a, b, c, d];
    assert Joined([a, b, c]) == a + b + c;
    assert Joined([a, b, c, d]) == a + b + c + d;
  }

  /** The same of version 3 with a client identifier alone. */
  lemma ConnectWire3()
    ensures var d := ConnectData(3, Delimited([0x63]), 0x0102, 0, false,
            WillOptions(Delimited([]), Delimited([]), 1, 2), MqttString(None, None), MqttString(None, None));
            Frame(Header(CONNECT, 0, 0, 0), ConnectBody(d)) ==
            [0x10, 0x0F, 0x00, 0x06, 0x4D, 0x51, 0x49, 0x73, 0x64, 0x70, 0x03, 0x00, 0x01, 0x02, 0x00, 0x01, 0x63]
  {
    var d := ConnectData(3, Delimited([0x63]), 0x0102, 0, false, WillOptions(Delimited([]), Delimited([]), 1, 2),
      MqttString(None, None), MqttString(None, None));
    var a: seq<byte> := [0x63];
    assert Fields(d) == [a] && UnsubscribeItems([a]) == [TextBytes(a)];
    ShortText(a);
    ShortText(MQISDP);
    JoinedOne(TextBytes(a));
    ConnectFigures(d);
    assert FlagsByte(d) == 0 && IntBytes(0x0102) == [1, 2];
    hide Joined, UnsubscribeItems, Fields, TextBytes, IntBytes, FlagsByte, Frame, Header;
    ShortFrame(0x10, ConnectBody(d));
  }

  /** The strings of the payload. */
  method WriteStrings(buf: array<byte>, ptr: nat, d: ConnectData, ghost b: seq<byte>) returns (p: nat)
    requires ptr == |ConnectFront(d)| && |ConnectFront(d)| + |Joined(UnsubscribeItems(Fields(d)))| <= buf.Length
    requires Wrote(b, buf[..], 0, ConnectFront(d))
    modifies buf
    ensures p == |ConnectFront(d)| + |Joined(UnsubscribeItems(Fields(d)))|
    ensures Wrote(b, buf[..], 0, ConnectFront(d) + Joined(UnsubscribeItems(Fields(d))))
  {
    hide *;
    ghost var fs, front := Fields(d), ConnectFront(d);
    FieldsAt(d);
    JoinedAll(UnsubscribeItems(fs));
    EmptyTail(front);
    p := WriteField(buf, ptr, d.clientId, b, front, fs, 0);
    ghost var k := 1;
    if d.willFlag {
      p := WriteField(buf, p, d.will.topicName, b, front, fs, 1);
      p := WriteField(buf, p, d.will.message, b, front, fs, 2);
      k := 3;
    }
    if Present(d.username) {
      p := WriteField(buf, p, d.username, b, front, fs, k);
      k := k + 1;
    }
    if Present(d.password) {
      p := WriteField(buf, p, d.password, b, front, fs, k);
      k := k + 1;
    }
  }

  lemma ConnectParts(d: ConnectData)
    ensures ConnectFront(d) == [Header(CONNECT, 0, 0, 0)] + Encode(|ConnectBody(d)|) + VariableHeader(d)
    ensures |[Header(CONNECT, 0, 0, 0)] + Encode(|ConnectBody(d)|)| == 1 + |Encode(|ConnectBody(d)|)|
    ensures Frame(Header(CONNECT, 0, 0, 0), ConnectBody(d)) == ConnectFront(d) + Joined(UnsubscribeItems(Fields(d)))
    ensures |Frame(Header(CONNECT, 0, 0, 0), ConnectBody(d))| == 1 + |Encode(|ConnectBody(d)|)| + |ConnectBody(d)|
  {
    hide Encode, Joined, VariableHeader, UnsubscribeItems, Text, Present;
    Assoc([Header(CONNECT, 0, 0, 0)] + Encode(|ConnectBody(d)|), VariableHeader(d),
      Joined(UnsubscribeItems(Fields(d))));
  }

  /** Which field is where in the payload. */
  lemma FieldsAt(d: ConnectData)
    ensures var k := 1 + if d.willFlag then 2 else 0;
            var m := k + if Present(d.username) then 1 else 0;
            && |Fields(d)| == m + (if Present(d.password) then 1 else 0)
            && (d.willFlag ==> Fields(d)[1] == Text(d.will.topicName) && Fields(d)[2] == Text(d.will.message))
            && (Present(d.username) ==> Fields(d)[k] == Text(d.username))
            && (Present(d.password) ==> Fields(d)[m] == Text(d.password))
  {
    hide Text, Present;
  }

  // ----- deserialising -----

  /** Neither differs from the other before one of them ends: a shorter protocol name passes, and a longer one. */
  predicate AgreeOn(p: seq<byte>, name: seq<byte>) {
    p <= name || name <= p
  }

  /** Names that pass for "MQTT" and are not: the empty one, a part of it, more than it. */
  lemma OtherNames(p: seq<byte>)
    ensures AgreeOn(p, MQTT) && p != MQTT <==> p < MQTT || MQTT < p
    ensures [] < MQTT && MQTT[..2] < MQTT && MQTT < MQTT + [0]
  {
  }

  /** MQTTPacket_checkVersion. */
  method CheckVersion(protocol: seq<byte>, version: nat) returns (ok: bool)
    ensures ok <==> (version == 3 && AgreeOn(protocol, MQISDP)) || (version == 4 && AgreeOn(protocol, MQTT))
  {
    var n3 := if 6 < |protocol| then 6 else |protocol|;
    var n4 := if 4 < |protocol| then 4 else |protocol|;
    ok := (version == 3 && protocol[..n3] == MQISDP[..n3]) || (version == 4 && protocol[..n4] == MQTT[..n4]);
  }

  function FlagClean(f: byte): nat { f as int / 2 % 2 }
  predicate FlagWill(f: byte) { f as int / 4 % 2 == 1 }
  function FlagWillQos(f: byte): nat { f as int / 8 % 4 }
  function FlagWillRetain(f: byte): nat { f as int / 32 % 2 }
  predicate FlagPassword(f: byte) { f as int / 64 % 2 == 1 }
  predicate FlagUsername(f: byte) { f as int / 128 % 2 == 1 }

  /** The connect flags of section 3.1.2.3 in figures, bit by bit: user name, password, will retain, will QoS (two
      bits), will, clean session, and a zero; without a will its bits are zero. */
  predicate FlagBits(f: byte, d: ConnectData) {
    && (f / 128 == 1 <==> Present(d.username)) && (f / 64 % 2 == 1 <==> Present(d.password))
    && (f / 4 % 2 == 1 <==> d.willFlag) && f / 2 % 2 == d.cleansession && f % 2 == 0
    && (if d.willFlag then f / 32 % 2 == d.will.retained && f / 8 % 4 == d.will.qos else f / 8 % 8 == 0)
  }

  lemma FlagFields(d: ConnectData)
    requires Connectable(d)
    ensures FlagBits(FlagsByte(d), d)
    ensures var f := FlagsByte(d);
            && FlagClean(f) == d.cleansession && (FlagWill(f) <==> d.willFlag)
            && (d.willFlag ==> FlagWillQos(f) == d.will.qos && FlagWillRetain(f) == d.will.retained)
            && (FlagUsername(f) <==> Present(d.username)) && (FlagPassword(f) <==> Present(d.password))
  {
    var w, p, u := if d.willFlag then 1 else 0, if Present(d.password) then 1 else 0, if Present(d.username) then 1
      else 0;
    var c, q, r := d.cleansession, if d.willFlag then d.will.qos else 0, if d.willFlag then d.will.retained else 0;
    assert c % 2 == c && q % 4 == q && r % 2 == r;
    assert FlagsByte(d) as int == c * 2 + w * 4 + q * 8 + r * 32 + p * 64 + u * 128;
    hide FlagsByte, Connectable, Present;
    FlagArithmetic(c, w, q, r, p, u);
  }

  lemma FlagArithmetic(c: nat, w: nat, q: nat, r: nat, p: nat, u: nat)
    requires c < 2 && w < 2 && q < 4 && r < 2 && p < 2 && u < 2
    ensures var f: nat := c * 2 + w * 4 + q * 8 + r * 32 + p * 64 + u * 128;
            && f < 256 && f / 2 % 2 == c && f / 4 % 2 == w && f / 8 % 4 == q && f / 32 % 2 == r && f / 64 % 2 == p
               && f / 128 % 2 == u && f / 128 == u && f % 2 == 0 && f / 8 % 8 == q + 4 * r
  {
    var f: nat := c * 2 + w * 4 + q * 8 + r * 32 + p * 64 + u * 128;
    assert f / 128 == u && f / 64 == p + 2 * u && f / 32 == r + 2 * p + 4 * u;
    assert f / 8 == q + 4 * r + 8 * p + 16 * u;
    assert f / 4 == w + 2 * q + 8 * r + 16 * p + 32 * u;
    assert f / 2 == c + 2 * w + 4 * q + 16 * r + 32 * p + 64 * u;
  }

  /** Where the variable header and the payload are in a buffer that starts with a CONNECT packet. */
  lemma ConnectOnWire(b: seq<byte>, d: ConnectData, e: seq<byte>) returns (at: nat, v: nat, o: nat, end: nat)
    requires Connectable(d) && ValidLength(e) && Value(e) == |ConnectBody(d)|
    requires At(b, 0, FrameWith(Header(CONNECT, 0, 0, 0), e, ConnectBody(d)))
    ensures at == 1 + |e| && v == at + 2 + |ProtocolName(d.version)| && o == v + 4
    ensures end == o + |Joined(UnsubscribeItems(Fields(d)))| == at + |ConnectBody(d)| <= |b|
    ensures HeaderType(b[0]) == CONNECT && Decoded(b[1..]) == (|ConnectBody(d)|, |e|) && ValidLength(Field(b[1..]))
    ensures 256 * b[at] as int + b[at + 1] as int == |ProtocolName(d.version)|
            && b[at + 2..v] == ProtocolName(d.version)
    ensures b[v] as int == d.version && b[v + 1] == FlagsByte(d)
            && 256 * b[v + 2] as int + b[v + 3] as int == d.keepAlive
    ensures At(b, o, Joined(UnsubscribeItems(Fields(d))))
  {
    NameShort(d);
    hide *;
    at := 1 + |e|;
    v := at + 2 + |ProtocolName(d.version)|;
    o := v + 4;
    end := o + |Joined(UnsubscribeItems(Fields(d)))|;
    ConnectHeader();
    AtFrame(b, Header(CONNECT, 0, 0, 0), e, ConnectBody(d));
    BodyParts(d);
    AtSplit(b, at, VariableHeader(d), o, Joined(UnsubscribeItems(Fields(d))), ConnectBody(d));
    AtVariableHeader(b, d, at, v);
  }

  lemma ConnectHeader()
    ensures HeaderType(Header(CONNECT, 0, 0, 0)) == CONNECT
  {
    HeaderFields(CONNECT, 0, 0, 0);
  }

  lemma NameShort(d: ConnectData)
    requires Connectable(d)
    ensures |ProtocolName(d.version)| < 7 && |VariableHeader(d)| == |ProtocolName(d.version)| + 6
            && d.keepAlive < 0x1_0000
  {
  }

  lemma BodyParts(d: ConnectData)
    ensures ConnectBody(d) == VariableHeader(d) + Joined(UnsubscribeItems(Fields(d)))
  {
  }

  lemma AtVariableHeader(b: seq<byte>, d: ConnectData, at: nat, v: nat)
    requires Connectable(d) && At(b, at, VariableHeader(d)) && v == at + 2 + |ProtocolName(d.version)|
    ensures v + 4 <= |b|
    ensures 256 * b[at] as int + b[at + 1] as int == |ProtocolName(d.version)|
            && b[at + 2..v] == ProtocolName(d.version)
    ensures b[v] as int == d.version && b[v + 1] == FlagsByte(d)
            && 256 * b[v + 2] as int + b[v + 3] as int == d.keepAlive
  {
    HeaderParts(d);
    NameShort(d);
    var n := ProtocolName(d.version);
    var name, ver: byte, flags := TextBytes(n), if d.version == 4 then 4 else 3, FlagsByte(d);
    hide *;
    AtSplit(b, at, name + [ver] + [flags], v + 2, IntBytes(d.keepAlive), VariableHeader(d));
    AtSplit(b, at, name + [ver], v + 1, [flags], name + [ver] + [flags]);
    AtSplit(b, at, name, v, [ver], name + [ver]);
    AtText(b, at, n);
    AtByte(b, v, ver);
    AtByte(b, v + 1, flags);
    AtInt(b, v + 2, d.keepAlive);
  }

  /** One string of the payload. */
  method ReadField(buf: array<byte>, cur: nat, end: nat, ghost o: nat, ghost fs: seq<seq<byte>>, ghost k: nat)
    returns (ok: bool, s: MqttString, p: nat)
    requires k < |fs| && |fs[k]| < 0x1_0000 && At(buf[..], o, Joined(UnsubscribeItems(fs)))
    requires cur == o + |Joined(UnsubscribeItems(fs)[..k])| && o + |Joined(UnsubscribeItems(fs))| <= end <= buf.Length
    ensures cur + 2 <= end
    ensures ok && s == Delimited(fs[k]) && p == o + |Joined(UnsubscribeItems(fs)[..k + 1])| == cur + 2 + |fs[k]| <= end
  {
    hide *;
    ghost var items := UnsubscribeItems(fs);
    ItemAt(buf[..], o, items, k, cur);
    AtText(buf[..], cur, fs[k]);
    ok, s, p := ReadLenString(buf, cur, end);
  }

  /** The fields of `out` are those of `d`; what `d` does not have is as in `before`, and so is the version, which is
      never stored. */
  predicate SameConnect(out: ConnectData, d: ConnectData, before: ConnectData) {
    && out.cleansession == d.cleansession && out.keepAlive == d.keepAlive && out.clientId == Delimited(Text(d.clientId))
    && out.willFlag == d.willFlag && out.version == before.version
    && out.will == (if d.willFlag
       then WillOptions(Delimited(Text(d.will.topicName)), Delimited(Text(d.will.message)), d.will.retained, d.will.qos)
                    else before.will)
    && out.username == (if Present(d.username) then Delimited(Text(d.username)) else before.username)
    && out.password == (if Present(d.password) then Delimited(Text(d.password)) else before.password)
  }

  /** MQTTDeserialize_connect on a buffer that holds a CONNECT packet, and perhaps other bytes behind it: it is taken if
      and only if its credentials are as they must be, and then every field comes back. */
  method DeserializeConnect(data: ConnectData, buf: array<byte>, len: nat, ghost d: ConnectData, ghost e: seq<byte>)
    returns (rc: nat, out: ConnectData)
    requires Connectable(d) && ValidLength(e) && Value(e) == |ConnectBody(d)|
    requires At(buf[..], 0, FrameWith(Header(CONNECT, 0, 0, 0), e, ConnectBody(d)))
    requires 1 + |e| + |ConnectBody(d)| <= len <= buf.Length
    ensures rc == (if Credentialed(d, len - (1 + |e| + |ConnectBody(d)|)) then 1 else 0)
            && (rc == 1 ==> SameConnect(out, d, data))
  {
    assert CONNECT == 1;
    NameKnown(d);
    hide *;
    rc, out := 0, data;
    ghost var at, v, o, last := ConnectOnWire(buf[..], d, e);
    if HeaderType(buf[0]) == CONNECT {
      var n, mylen := DecodeBuf(buf, 1);
      var cur := 1 + n;
      var ok, protocol;
      ok, protocol, cur := ReadLenString(buf, cur, len);
      if ok {
        DelimitedText(buf[at + 2..v]);
        ok := CheckVersion(protocol.lenstring.value, buf[cur]);
        if ok {
          rc, out := ReadConnect(data, buf, cur + 1, len, d);
        }
      }
    }
  }

  lemma DelimitedText(t: seq<byte>)
    ensures Delimited(t).lenstring.Some? && Delimited(t).lenstring.value == t
  {
  }

  lemma NameKnown(d: ConnectData)
    requires Connectable(d)
    ensures (d.version == 3 && AgreeOn(ProtocolName(d.version), MQISDP))
            || (d.version == 4 && AgreeOn(ProtocolName(d.version), MQTT))
    ensures |ProtocolName(d.version)| < 7
  {
  }

  /** The part behind the protocol version. */
  method ReadConnect(data: ConnectData, buf: array<byte>, at: nat, end: nat, ghost d: ConnectData)
    returns (rc: nat, out: ConnectData)
    requires Connectable(d) && at + 3 <= end <= buf.Length
    requires buf[at] == FlagsByte(d) && 256 * buf[at + 1] as int + buf[at + 2] as int == d.keepAlive
    requires At(buf[..], at + 3, Joined(UnsubscribeItems(Fields(d))))
             && at + 3 + |Joined(UnsubscribeItems(Fields(d)))| <= end
    ensures rc == (if Credentialed(d, end - (at + 3 + |Joined(UnsubscribeItems(Fields(d)))|)) then 1 else 0)
            && (rc == 1 ==> SameConnect(out, d, data))
  {
    FlagFields(d);
    FieldsAt(d);
    FieldsShort(d);
    hide *;
    ghost var fs, o := Fields(d), at + 3;
    rc, out := 0, data;
    var flags := buf[at];
    out := out.(cleansession := FlagClean(flags));
    var cur, keepAlive, s := at + 1, 0, data.clientId;
    keepAlive, cur := ReadInt(buf, cur);
    out := out.(keepAlive := keepAlive);
    JoinedAll(UnsubscribeItems(fs));
    var ok;
    ok, s, cur := ReadField(buf, cur, end, o, fs, 0);
    if !ok { return; }
    out := out.(clientId := s, willFlag := FlagWill(flags));
    if FlagWill(flags) {
      var will;
      will, cur := ReadWill(buf, cur, end, flags, o, d);
      out := out.(will := will);
    }
    rc, out := ReadCredentials(out, buf, cur, end, flags, o, d, if d.willFlag then 3 else 1);
    if rc == 1 {
      SameFields(out, d, data);
    }
  }

  /** Topic and message of the will; both are there, so neither read fails. */
  method ReadWill(buf: array<byte>, at: nat, end: nat, flags: byte, ghost o: nat, ghost d: ConnectData)
    returns (will: WillOptions, p: nat)
    requires Connectable(d) && flags == FlagsByte(d) && d.willFlag
    requires At(buf[..], o, Joined(UnsubscribeItems(Fields(d))))
             && o + |Joined(UnsubscribeItems(Fields(d)))| <= end <= buf.Length
    requires 3 <= |Fields(d)| && at == o + |Joined(UnsubscribeItems(Fields(d))[..1])|
    ensures p == o + |Joined(UnsubscribeItems(Fields(d))[..3])|
    ensures will == WillOptions(Delimited(Text(d.will.topicName)), Delimited(Text(d.will.message)), d.will.retained,
            d.will.qos)
  {
    FlagFields(d);
    FieldsAt(d);
    FieldsShort(d);
    hide *;
    var ok, topic, message;
    ok, topic, p := ReadField(buf, at, end, o, Fields(d), 1);
    ok, message, p := ReadField(buf, p, end, o, Fields(d), 2);
    will := WillOptions(topic, message, FlagWillRetain(flags), FlagWillQos(flags));
  }

  /** User name and password. */
  method ReadCredentials(data: ConnectData, buf: array<byte>, at: nat, end: nat, flags: byte, ghost o: nat,
                         ghost d: ConnectData, ghost k: nat)
    returns (rc: nat, out: ConnectData)
    requires Connectable(d) && flags == FlagsByte(d) && k == 1 + if d.willFlag then 2 else 0
    requires At(buf[..], o, Joined(UnsubscribeItems(Fields(d))))
             && o + |Joined(UnsubscribeItems(Fields(d)))| <= end <= buf.Length
    requires k <= |Fields(d)| && at == o + |Joined(UnsubscribeItems(Fields(d))[..k])|
    ensures rc == if Credentialed(d, end - (o + |Joined(UnsubscribeItems(Fields(d)))|)) then 1 else 0
    ensures rc == 1 ==> out == data.(username := if Present(d.username) then Delimited(Text(d.username))
            else data.username,
                                     password := if Present(d.password) then Delimited(Text(d.password))
                                       else data.password)
  {
    FlagFields(d);
    FieldsAt(d);
    FieldsShort(d);
    CredentialCases(d, end - (o + |Joined(UnsubscribeItems(Fields(d)))|));
    hide *;
    ghost var fs := Fields(d);
    rc, out := 0, data;
    var cur, ok, s := at, true, data.username;
    if FlagUsername(flags) {
      ok, s, cur := ReadCredential(buf, cur, end, o, fs, k);
      if !ok {
        return;
      }
      out := out.(username := s);
      if FlagPassword(flags) {
        ok, s, cur := ReadCredential(buf, cur, end, o, fs, k + 1);
        if !ok {
          return;
        }
        out := out.(password := s);
      }
    } else if FlagPassword(flags) {
      return;
    }
    rc := 1;
  }

  lemma CredentialCases(d: ConnectData, slack: nat)
    ensures !Present(d.username) ==> (Credentialed(d, slack) <==> !Present(d.password))
    ensures Present(d.username) && !Present(d.password) ==> (Credentialed(d, slack) <==> |Text(d.username)| + slack > 0)
    ensures Present(d.username) && Present(d.password) ==> (Credentialed(d, slack) <==> |Text(d.password)| + slack > 0)
  {
  }

  /** A string of the payload for which at least three bytes must be left. */
  method ReadCredential(buf: array<byte>, cur: nat, end: nat, ghost o: nat, ghost fs: seq<seq<byte>>, ghost k: nat)
    returns (ok: bool, s: MqttString, p: nat)
    requires k < |fs| && |fs[k]| < 0x1_0000 && At(buf[..], o, Joined(UnsubscribeItems(fs)))
    requires cur == o + |Joined(UnsubscribeItems(fs)[..k])| && o + |Joined(UnsubscribeItems(fs))| <= end <= buf.Length
    ensures ok <==> k + 1 < |fs| || |fs[k]| > 0 || o + |Joined(UnsubscribeItems(fs))| < end
    ensures ok ==> s == Delimited(fs[k]) && p == o + |Joined(UnsubscribeItems(fs)[..k + 1])| <= end
  {
    hide *;
    ok, s, p := ReadField(buf, cur, end, o, fs, k);
    RestOfFields(fs, k + 1);
    if end - cur < 3 {
      ok := false;
    }
  }

  /** Behind `k` fields there are two more bytes at least, unless that was all. */
  lemma RestOfFields(fs: seq<seq<byte>>, k: nat)
    requires k <= |fs|
    ensures k == |fs| ==> |Joined(UnsubscribeItems(fs)[..k])| == |Joined(UnsubscribeItems(fs))|
    ensures k < |fs| ==> |Joined(UnsubscribeItems(fs)[..k])| + 2 <= |Joined(UnsubscribeItems(fs))|
  {
    hide Joined, TextBytes;
    var items := UnsubscribeItems(fs);
    JoinedAll(items);
    if k < |fs| {
      JoinedNext(items, k);
      JoinedStart(items, k + 1);
    }
  }

  lemma FieldsShort(d: ConnectData)
    requires Connectable(d)
    ensures forall i | 0 <= i < |Fields(d)| :: |Fields(d)[i]| < 0x1_0000
  {
    hide Text, StrLen;
  }

  lemma SameFields(out: ConnectData, d: ConnectData, before: ConnectData)
    requires out.cleansession == d.cleansession && out.keepAlive == d.keepAlive
             && out.clientId == Delimited(Text(d.clientId))
    requires out.willFlag == d.willFlag && out.version == before.version
    requires if d.willFlag
             then out.will == WillOptions(Delimited(Text(d.will.topicName)), Delimited(Text(d.will.message)),
               d.will.retained, d.will.qos)
             else out.will == before.will
    requires out.username == if Present(d.username) then Delimited(Text(d.username)) else before.username
    requires out.password == if Present(d.password) then Delimited(Text(d.password)) else before.password
    ensures SameConnect(out, d, before)
  {
  }

  /** Serialised, then deserialised: every field comes back but the version, exactly when the credentials allow. */
  method EchoConnect(buf: array<byte>, d: ConnectData, data: ConnectData) returns (rc: int, out: ConnectData)
    requires Connectable(d)
    modifies buf
    ensures rc == if PacketLen(|ConnectBody(d)|) > buf.Length then BUFFER_TOO_SHORT else if Credentialed(d, 0) then 1
            else 0
    ensures rc == 1 ==> SameConnect(out, d, data)
  {
    assert BUFFER_TOO_SHORT == -2 && CONNECT == 1;
    hide *;
    ghost var b, n := buf[..], |ConnectBody(d)|;
    BodyBounded(d);
    EncodeLength(n);
    EncodeValue(n);
    rc := SerializeConnect(buf, buf.Length, d);
    out := data;
    if rc >= 0 {
      FrameForm(Header(CONNECT, 0, 0, 0), ConnectBody(d));
      WroteAt(b, buf[..], Frame(Header(CONNECT, 0, 0, 0), ConnectBody(d)));
      rc, out := DeserializeConnect(data, buf, rc, d, Encode(n));
    }
  }

  lemma BodyBounded(d: ConnectData)
    requires Connectable(d)
    ensures |ConnectBody(d)| <= MAX_LENGTH
  {
    FieldsLength(d);
    hide Joined, UnsubscribeItems, Fields, VariableHeader, ConnectBody;
  }
}
