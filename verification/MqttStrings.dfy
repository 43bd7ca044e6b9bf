/** MQTTPacket.c: cursors that write and read characters, integers and strings in a packet buffer. */
module MqttStrings {
  import opened Bytes
  import opened MqttPacket

  datatype Option<T> = None | Some(value: T)

  /** An MQTTString: a C string, a length-delimited one, or neither. */
  datatype MqttString = MqttString(cstring: Option<seq<byte>>, lenstring: Option<seq<byte>>)

  /** MQTTstrlen. */
  function StrLen(s: MqttString): nat {
    if s.cstring.Some? then |s.cstring.value| else if s.lenstring.Some? then |s.lenstring.value| else 0
  }

  /** The characters that are written for a string: of its length-delimited form unless that is empty. */
  function Text(s: MqttString): seq<byte> {
    if s.lenstring.Some? && s.lenstring.value != [] then s.lenstring.value
    else if s.cstring.Some? then s.cstring.value else []
  }

  /** The length that is announced is the length that is written, and two bytes hold it. Every string held in
      exactly one of its two forms is so. */
  predicate Writable(s: MqttString) {
    StrLen(s) == |Text(s)| < 0x1_0000
  }

  /** A string as a packet reader returns it. */
  function Delimited(t: seq<byte>): MqttString {
    MqttString(None, Some(t))
  }

  /** Two bytes, the most significant first. */
  function IntBytes(n: nat): (r: seq<byte>)
    ensures |r| == 2
  {
    [n / 256 % 256, n % 256]
  }

  /** A string in a packet: its length, then its characters. */
  function TextBytes(t: seq<byte>): (r: seq<byte>)
    ensures |r| == 2 + |t|
  {
    IntBytes(|t|) + t
  }

  /** The whole packet: header, remaining length, the rest. */
  function Frame(header: byte, body: seq<byte>): seq<byte> {
    FrameWith(header, Encode(|body|), body)
  }

  /** A packet whose length field is `e`. */
  function FrameWith(header: byte, e: seq<byte>, body: seq<byte>): (r: seq<byte>)
    ensures |r| == 1 + |e| + |body|
  {
    [header] + e + body
  }

  /** The header byte; the fields are cut to their bits. */
  function Header(kind: nat, dup: nat, qos: nat, retain: nat): byte {
    kind % 16 * 16 + dup % 2 * 8 + qos % 4 * 2 + retain % 2
  }

  function HeaderType(h: byte): nat { h as int / 16 }
  function HeaderDup(h: byte): nat { h as int / 8 % 2 }
  function HeaderQos(h: byte): nat { h as int / 2 % 4 }
  function HeaderRetain(h: byte): nat { h as int % 2 }

  /** A buffer that held `b` holds `c` after `bs` was written at `ptr`, and nothing behind it was touched. */
  ghost predicate Wrote(b: seq<byte>, c: seq<byte>, ptr: nat, bs: seq<byte>) {
    && ptr + |bs| <= |b| == |c|
    && c[..ptr + |bs|] == b[..ptr] + bs
    && c[ptr + |bs|..] == b[ptr + |bs|..]
  }

  /** Two writes one behind the other are one. */
  lemma WroteOn(b: seq<byte>, c: seq<byte>, d: seq<byte>, ptr: nat, x: seq<byte>, p: nat, y: seq<byte>, z: seq<byte>)
    requires Wrote(b, c, ptr, x) && Wrote(c, d, p, y) && p == ptr + |x| && z == x + y
    ensures Wrote(b, d, ptr, z)
  {
    assert d[..ptr + |z|] == b[..ptr] + z;
    var k := |y|;
    assert b[ptr + |x|..][k..] == b[ptr + |z|..];
    assert c[ptr + |x|..][k..] == c[ptr + |z|..];
  }

  lemma Regroup(a: seq<byte>, b: seq<byte>, c: seq<byte>, d: seq<byte>)
    ensures a + b + c + d == a + (b + c + d)
  {
  }

  lemma EmptyTail(a: seq<byte>)
    ensures a + [] == a
  {
  }

  method WriteChar(buf: array<byte>, ptr: nat, c: byte) returns (p: nat)
    requires ptr < buf.Length
    modifies buf
    ensures p == ptr + 1 && Wrote(old(buf[..]), buf[..], ptr, [c])
  {
    buf[ptr] := c;
    p := ptr + 1;
  }

  method WriteInt(buf: array<byte>, ptr: nat, n: nat) returns (p: nat)
    requires ptr + 1 < buf.Length
    modifies buf
    ensures p == ptr + 2 && Wrote(old(buf[..]), buf[..], ptr, IntBytes(n))
  {
    buf[ptr] := n / 256 % 256;
    buf[ptr + 1] := n % 256;
    p := ptr + 2;
  }

  /** memcpy at the cursor. */
  method WriteBytes(buf: array<byte>, ptr: nat, bs: seq<byte>) returns (p: nat)
    requires ptr + |bs| <= buf.Length
    modifies buf
    ensures p == ptr + |bs| && Wrote(old(buf[..]), buf[..], ptr, bs)
  {
    forall i | ptr <= i < ptr + |bs| {
      buf[i] := bs[i - ptr];
    }
    p := ptr + |bs|;
  }

  /** writeCString. */
  method WriteText(buf: array<byte>, ptr: nat, t: seq<byte>) returns (p: nat)
    requires ptr + 2 + |t| <= buf.Length
    modifies buf
    ensures p == ptr + 2 + |t| && Wrote(old(buf[..]), buf[..], ptr, TextBytes(t))
  {
    hide Wrote, IntBytes;
    ghost var b := buf[..];
    p := WriteInt(buf, ptr, |t|);
    ghost var c := buf[..];
    p := WriteBytes(buf, p, t);
    WroteOn(b, c, buf[..], ptr, IntBytes(|t|), ptr + 2, t, TextBytes(t));
  }

  method WriteMqttString(buf: array<byte>, ptr: nat, s: MqttString) returns (p: nat)
    requires ptr + 2 + |Text(s)| <= buf.Length
    modifies buf
    ensures p == ptr + 2 + |Text(s)| && Wrote(old(buf[..]), buf[..], ptr, TextBytes(Text(s)))
  {
    if s.lenstring.Some? && |s.lenstring.value| > 0 {
      p := WriteText(buf, ptr, s.lenstring.value);
    } else if s.cstring.Some? {
      p := WriteText(buf, ptr, s.cstring.value);
    } else {
      assert TextBytes([]) == IntBytes(0);
      p := WriteInt(buf, ptr, 0);
    }
  }

  /** Header and remaining length at the start of the buffer. */
  method WriteHead(buf: array<byte>, header: byte, remLen: nat) returns (p: nat)
    requires 1 + |Encode(remLen)| <= buf.Length
    modifies buf
    ensures p == 1 + |Encode(remLen)| && Wrote(old(buf[..]), buf[..], 0, [header] + Encode(remLen))
  {
    hide Encode;
    ghost var b := buf[..];
    p := WriteChar(buf, 0, header);
    ghost var c := buf[..];
    var n := EncodeInto(buf, p, remLen);
    assert Wrote(c, buf[..], p, Encode(remLen));
    p := p + n;
    WroteOn(b, c, buf[..], 0, [header], 1, Encode(remLen), [header] + Encode(remLen));
  }

  // ----- reading -----

  method ReadInt(buf: array<byte>, ptr: nat) returns (v: nat, p: nat)
    requires ptr + 1 < buf.Length
    ensures v == 256 * buf[ptr] as int + buf[ptr + 1] as int && p == ptr + 2
  {
    v := 256 * buf[ptr] as int + buf[ptr + 1] as int;
    p := ptr + 2;
  }

  /** readMQTTLenString: a string that ends at `end` at the latest. */
  method ReadLenString(buf: array<byte>, ptr: nat, end: nat) returns (ok: bool, s: MqttString, p: nat)
    requires ptr <= end <= buf.Length
    ensures ok <==> ptr + 1 < end && ptr + 2 + (256 * buf[ptr] as int + buf[ptr + 1] as int) <= end
    ensures ok ==> p == ptr + 2 + (256 * buf[ptr] as int + buf[ptr + 1] as int) && s == Delimited(buf[ptr + 2..p])
  {
    ok, p, s := false, ptr, MqttString(None, None);
    if end - ptr > 1 {
      var len;
      len, p := ReadInt(buf, ptr);
      if p + len <= end {
        s := Delimited(buf[p..p + len]);
        p := p + len;
        ok := true;
      }
    }
  }

  lemma HeaderFields(kind: nat, dup: nat, qos: nat, retain: nat)
    requires kind < 16 && dup < 2 && qos < 4 && retain < 2
    ensures var h := Header(kind, dup, qos, retain);
            HeaderType(h) == kind && HeaderDup(h) == dup && HeaderQos(h) == qos && HeaderRetain(h) == retain
  {
    assert kind % 16 == kind && dup % 2 == dup && qos % 4 == qos && retain % 2 == retain;
    var h: nat := kind * 16 + dup * 8 + qos * 2 + retain;
    assert h / 16 == kind && h / 8 == 2 * kind + dup && h / 2 == 8 * kind + 4 * dup + qos;
  }

  /** The header byte in figures: type, dup, QoS and retain in the bits 7 to 4, 3, 2 to 1 and 0 (section 2.2). */
  lemma HeaderBits(kind: nat, dup: nat, qos: nat, retain: nat)
    requires kind < 16 && dup < 2 && qos < 4 && retain < 2
    ensures var h := Header(kind, dup, qos, retain);
            h / 16 == kind && h / 8 % 2 == dup && h / 2 % 4 == qos && h % 2 == retain
  {
    HeaderFields(kind, dup, qos, retain);
  }

  /** Both bytes of a number, the high one first; the length of a string likewise (sections 1.5.2 and 1.5.3). */
  lemma BigEndian(n: nat)
    requires n < 0x1_0000
    ensures 256 * IntBytes(n)[0] as int + IntBytes(n)[1] as int == n && IntBytes(0x1234) == [0x12, 0x34]
    ensures TextBytes([0x61, 0x2F, 0x62]) == [0x00, 0x03, 0x61, 0x2F, 0x62]
  {
  }

  lemma ShortFrame(header: byte, body: seq<byte>)
    requires |body| < 128
    ensures Frame(header, body) == [header, |body|] + body
  {
  }

  lemma ShortText(t: seq<byte>)
    requires |t| < 256
    ensures TextBytes(t) == [0, |t|] + t
  {
  }

  /** A packet that was written starts with its header byte. */
  lemma FirstByte(b: seq<byte>, c: seq<byte>, header: byte, body: seq<byte>)
    requires Wrote(b, c, 0, Frame(header, body))
    ensures c != [] && c[0] == header
  {
    var wire := Frame(header, body);
    assert c[..|wire|] == wire && wire[0] == header && c[0] == c[..|wire|][0];
  }

  // ----- parts of a packet in a buffer -----

  /** `s` is in `b` at `o`. */
  ghost predicate At(b: seq<byte>, o: nat, s: seq<byte>)
    ensures At(b, o, s) ==> o + |s| <= |b|
  {
    o + |s| <= |b| && b[o..o + |s|] == s
  }

  lemma AtSplit(b: seq<byte>, o: nat, x: seq<byte>, p: nat, y: seq<byte>, z: seq<byte>)
    requires At(b, o, z) && z == x + y && p == o + |x|
    ensures At(b, o, x) && At(b, p, y)
  {
    assert b[o..o + |z|][..|x|] == x && b[o..o + |z|][|x|..] == y;
  }

  /** What was written is there. */
  lemma WroteAt(b: seq<byte>, c: seq<byte>, s: seq<byte>)
    requires Wrote(b, c, 0, s)
    ensures At(c, 0, s)
  {
  }

  lemma AtInt(b: seq<byte>, o: nat, n: nat)
    requires At(b, o, IntBytes(n)) && n < 0x1_0000
    ensures o + 2 <= |b| && 256 * b[o] as int + b[o + 1] as int == n
  {
    assert b[o] == b[o..o + 2][0] && b[o + 1] == b[o..o + 2][1];
  }

  lemma AtText(b: seq<byte>, o: nat, t: seq<byte>)
    requires At(b, o, TextBytes(t)) && |t| < 0x1_0000
    ensures o + 2 + |t| <= |b| && 256 * b[o] as int + b[o + 1] as int == |t| && b[o + 2..o + 2 + |t|] == t
  {
    AtSplit(b, o, IntBytes(|t|), o + 2, t, TextBytes(t));
    AtInt(b, o, |t|);
  }

  lemma AtEnd(b: seq<byte>, o: nat, s: seq<byte>, end: nat)
    requires At(b, o, s) && end == o + |s|
    ensures end <= |b| && b[o..end] == s
  {
  }

  lemma AtByte(b: seq<byte>, o: nat, c: byte)
    requires At(b, o, [c])
    ensures o < |b| && b[o] == c
  {
    assert b[o] == b[o..o + 1][0];
  }

  lemma AtParts(b: seq<byte>, header: byte, e: seq<byte>, body: seq<byte>)
    requires At(b, 0, FrameWith(header, e, body))
    ensures At(b, 0, [header]) && At(b, 1, e) && At(b, 1 + |e|, body)
  {
    var h: seq<byte> := [header];
    AtSplit(b, 0, h + e, 1 + |e|, body, FrameWith(header, e, body));
    AtSplit(b, 0, h, 1, e, h + e);
  }

  /** A buffer that starts with a packet: header, length field, and where the rest is. */
  lemma AtFrame(b: seq<byte>, header: byte, e: seq<byte>, body: seq<byte>)
    requires At(b, 0, FrameWith(header, e, body)) && ValidLength(e) && Value(e) == |body|
    ensures 1 + |e| + |body| <= |b| && b[0] == header
    ensures Decoded(b[1..]) == (|body|, |e|) && ValidLength(Field(b[1..])) && At(b, 1 + |e|, body)
  {
    hide *;
    AtParts(b, header, e, body);
    AtByte(b, 0, header);
    AtStart(b, 1, e);
    DecodedValid(e, b[1 + |e|..]);
  }

  lemma AtStart(b: seq<byte>, o: nat, s: seq<byte>)
    requires At(b, o, s)
    ensures o + |s| <= |b| && b[o..] == s + b[o + |s|..]
  {
  }
}
