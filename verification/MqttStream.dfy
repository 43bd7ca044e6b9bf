/** MQTTPacket.c: packets read from a stream, in one go or resumed after every short read. */
module MqttStream {
  import opened Bytes
  import opened MqttPacket
  import opened MqttStrings

  // ----- packets on the wire -----

  /** A packet as it is sent: its length field may take more bytes than it needs. */
  datatype Packet = Packet(header: byte, length: seq<byte>, payload: seq<byte>)

  predicate WellFormed(p: Packet) {
    ValidLength(p.length) && Value(p.length) == |p.payload| && HeaderType(p.header) != 0
  }

  function Wire(p: Packet): (w: seq<byte>)
    ensures |w| == 1 + |p.length| + |p.payload|
  {
    [p.header] + p.length + p.payload
  }

  /** What a reader leaves in its buffer: the length field in its shortest form. */
  function Stored(p: Packet): (w: seq<byte>)
    ensures |w| == 1 + |Encode(|p.payload|)| + |p.payload|
  {
    [p.header] + Encode(|p.payload|) + p.payload
  }

  // ----- what has been read of a packet -----

  /** Bytes of a length field that is not over yet. */
  predicate MoreLength(e: seq<byte>) {
    |e| <= 4 && forall i | 0 <= i < |e| :: e[i] >= 128
  }

  /** How far a reader has come with the packet at hand. */
  datatype Progress =
    | Start
    | InLength(header: byte, e: seq<byte>)
    | InPayload(header: byte, e: seq<byte>, got: seq<byte>)

  /** The bytes read so far. */
  function Consumed(g: Progress): seq<byte> {
    match g
    case Start => []
    case InLength(h, e) => [h] + e
    case InPayload(h, e, got) => [h] + e + got
  }

  /** A stream that delivers its bytes in the portions of `script`: how many at most at each call, 0 for "call
      again", -1 for an error. */
  class Transport {
    var wire: seq<byte>     // bytes not delivered yet
    var script: seq<int>    // answers of the calls to come; no answer left: call again
    var state: nat
    var len: nat
    var remLen: nat
    var multiplier: nat

    constructor (bytes: seq<byte>, answers: seq<int>)
      ensures wire == bytes && script == answers && state == 0
    {
      wire, script := bytes, answers;
      state, len, remLen, multiplier := 0, 0, 0, 1;
    }

    /** getfn: at most `n` bytes into `buf` from `at` on. */
    method Get(buf: array<byte>, at: nat, n: nat) returns (rc: int)
      requires at + n <= buf.Length && n > 0
      modifies this`wire, this`script, buf
      ensures script == if |old(script)| == 0 then [] else old(script)[1..]
      ensures rc == -1 || (0 <= rc <= n && rc <= |old(wire)|)
      ensures rc == -1 ==> |old(script)| > 0 && old(script)[0] < 0 && wire == old(wire) && buf[..] == old(buf[..])
      ensures rc >= 0 ==> wire == old(wire)[rc..] && At(buf[..], at, old(wire)[..rc])
      ensures forall i | 0 <= i < buf.Length && !(at <= i < at + rc) :: buf[i] == old(buf[i])
      ensures |old(script)| > 0 && old(script)[0] > 0 && |old(wire)| > 0 ==> rc > 0
    {
      var k := if |script| == 0 then 0 else script[0];
      script := if |script| == 0 then [] else script[1..];
      if k < 0 {
        return -1;
      }
      k := if k > n then n else k;
      k := if k > |wire| then |wire| else k;
      ghost var w := wire;
      forall i | at <= i < at + k {
        buf[i] := wire[i - at];
      }
      wire := wire[k..];
      assert buf[at..at + k] == w[..k];
      rc := k;
    }
  }

  /** The reader is in the payload of a packet: its buffer holds what it has, with the shortest length field. */
  ghost predicate AtPayload(state: nat, len: nat, remLen: nat, b: seq<byte>, h: byte, e: seq<byte>, got: seq<byte>) {
    && state == 2 && ValidLength(e) && |got| + remLen == Value(e) && len == 1 + |Encode(Value(e))| + |got|
    && len + remLen <= |b|
    && At(b, 0, [h] + Encode(Value(e)) + got)
  }

  /** The reader is in the length field of a packet. */
  ghost predicate AtLength(state: nat, len: nat, remLen: nat, multiplier: nat, b: seq<byte>, h: byte, e: seq<byte>) {
    && state == 1 && MoreLength(e) && |b| >= 5 && b[0] == h && len == |e|
    && (e != [] ==> remLen == Value(e) && multiplier == Pow128(|e|))
  }

  /** The reader's state is that of progress `g`. */
  ghost predicate Represents(trp: Transport, buf: array<byte>, g: Progress)
    reads trp`state, trp`len, trp`remLen, trp`multiplier, buf
  {
    match g
    case Start => trp.state == 0
    case InLength(h, e) => AtLength(trp.state, trp.len, trp.remLen, trp.multiplier, buf[..], h, e)
    case InPayload(h, e, got) => AtPayload(trp.state, trp.len, trp.remLen, buf[..], h, e, got) && |got| < Value(e)
  }

  /** Answers `s'` are what is left of the answers `s`. */
  ghost predicate LeftOf(s: seq<int>, s': seq<int>)
    ensures LeftOf(s, s') ==> |s'| <= |s|
  {
    |s'| <= |s| && s' == s[|s| - |s'|..]
  }

  ghost predicate HasError(s: seq<int>) {
    exists i :: 0 <= i < |s| && s[i] < 0
  }

  /** Number of answers that deliver something. */
  function Positive(s: seq<int>): nat {
    if s == [] then 0 else (if s[0] > 0 then 1 else 0) + Positive(s[1..])
  }

  /** The answers to come are enough to deliver the whole stream, a byte at a time if need be. */
  ghost predicate Enough(s: seq<int>, w: seq<byte>) {
    Positive(s) >= |w|
  }

  /** A call of getfn keeps that. */
  lemma EnoughAfter(s: seq<int>, w: seq<byte>, s': seq<int>, w': seq<byte>, rc: int)
    requires s' == if |s| == 0 then [] else s[1..]
    requires rc >= 0 ==> rc <= |w| && w' == w[rc..]
    requires |s| > 0 && s[0] > 0 && |w| > 0 ==> rc > 0
    requires rc < 0 ==> rc == -1 && w' == w && |s| > 0 && s[0] < 0
    ensures Enough(s, w) ==> Enough(s', w')
  {
  }

  /** MQTTPacket_decodenb: goes on with a length field of which `e` has been read. */
  method DecodeNb(trp: Transport, ghost e: seq<byte>) returns (rc: int, ghost e': seq<byte>)
    requires MoreLength(e) && trp.len == |e| && (e != [] ==> trp.remLen == Value(e) && trp.multiplier == Pow128(|e|))
    modifies trp`wire, trp`script, trp`len, trp`remLen, trp`multiplier
    ensures trp.len == |e'| && e + old(trp.wire) == e' + trp.wire && LeftOf(old(trp.script), trp.script)
    ensures e' != [] ==> trp.remLen == Value(e') && trp.multiplier == Pow128(|e'|)
    ensures rc == 0 ==> MoreLength(e')
    ensures rc > 0 ==> rc == |e'| && ValidLength(e')
    ensures rc < 0 ==> rc == -1 && (HasError(old(trp.script)) || (|e'| == 4 && MoreLength(e')))
    ensures Enough(old(trp.script), old(trp.wire)) ==> Enough(trp.script, trp.wire)
    ensures rc >= 0 && |old(trp.script)| > 0 ==> |trp.script| < |old(trp.script)|
  {
    e' := e;
    if trp.len == 0 {
      trp.multiplier := 1;
      trp.remLen := 0;
      ValueNothing();
    }
    LeftOfAll(trp.script);
    hide *;
    while true
      invariant MoreLength(e') && trp.len == |e'| <= 4 && trp.remLen == Value(e') && trp.multiplier == Pow128(|e'|)
      invariant e + old(trp.wire) == e' + trp.wire && LeftOf(old(trp.script), trp.script)
      invariant Enough(old(trp.script), old(trp.wire)) ==> Enough(trp.script, trp.wire)
      invariant |e'| > |e| && |old(trp.script)| > 0 ==> |trp.script| < |old(trp.script)|
      decreases 4 - |e'|
    {
      if trp.len >= 4 {
        return -1, e';
      }
      ghost var w, s := trp.wire, trp.script;
      var c;
      rc, c := DecodeByte(trp, e');
      LeftOfOn(old(trp.script), s, trp.script);
      if rc == -1 {
        ErrorLater(old(trp.script), s);
        return;
      }
      if rc == 0 {
        return;
      }
      OneTaken(e', w, trp.wire);
      OneMore(e', c);
      e' := e' + [c];
      if c < 128 {
        return trp.len, e';
      }
    }
  }

  /** One more byte of a length field. */
  method DecodeByte(trp: Transport, ghost e: seq<byte>) returns (frc: int, c: byte)
    requires trp.len == |e| && trp.remLen == Value(e) && trp.multiplier == Pow128(|e|)
    modifies trp`wire, trp`script, trp`len, trp`remLen, trp`multiplier
    ensures frc in {-1, 0, 1} && LeftOf(old(trp.script), trp.script)
    ensures frc == -1 ==> HasError(old(trp.script))
    ensures frc != 1 ==>
              trp.len == |e| && trp.remLen == Value(e) && trp.multiplier == Pow128(|e|)
              && trp.wire == old(trp.wire)
    ensures frc == 1 ==> trp.len == |e + [c]| && trp.remLen == Value(e + [c]) && trp.multiplier == Pow128(|e + [c]|)
    ensures frc == 1 ==> |old(trp.wire)| > 0 && c == old(trp.wire)[0] && trp.wire == old(trp.wire)[1..]
    ensures Enough(old(trp.script), old(trp.wire)) ==> Enough(trp.script, trp.wire)
    ensures |old(trp.script)| > 0 ==> |trp.script| < |old(trp.script)|
  {
    hide Value, Pow128, HasError, Enough, At;
    var cell := new byte[1];
    ghost var w, s := trp.wire, trp.script;
    frc := trp.Get(cell, 0, 1);
    c := cell[0];
    EnoughAfter(s, w, trp.script, trp.wire, frc);
    if frc == -1 {
      ErrorInside(s, s);
    }
    if frc == 1 {
      OneByte(cell[..], w);
      ValueSnoc(e, c);
      trp.len := trp.len + 1;
      trp.remLen := trp.remLen + c % 128 * trp.multiplier;
      trp.multiplier := trp.multiplier * 128;
    }
  }

  lemma OneMore(e: seq<byte>, c: byte)
    requires MoreLength(e) && |e| < 4
    ensures if c < 128 then ValidLength(e + [c]) else MoreLength(e + [c])
    ensures |e + [c]| == |e| + 1 && e + [c] != []
  {
  }

  lemma OneByte(c: seq<byte>, w: seq<byte>)
    requires |c| == 1 && |w| > 0 && At(c, 0, w[..1])
    ensures c[0] == w[0]
  {
    assert c[0..1][0] == w[..1][0];
  }

  lemma OneTaken(e: seq<byte>, w: seq<byte>, w': seq<byte>)
    requires |w| > 0 && w' == w[1..]
    ensures e + w == e + [w[0]] + w'
  {
    assert w == [w[0]] + w';
  }

  lemma LeftOfTail(s: seq<int>, t: seq<int>, t': seq<int>)
    requires LeftOf(s, t) && t' == if |t| == 0 then [] else t[1..]
    ensures LeftOf(s, t')
  {
  }

  lemma ErrorInside(s: seq<int>, t: seq<int>)
    requires LeftOf(s, t) && |t| > 0 && t[0] < 0
    ensures HasError(s)
  {
    assert s[|s| - |t|] < 0;
  }

  // ----- one call -----

  /** How a call can end: the packet is not complete yet, it is complete, or reading it failed. */
  datatype Outcome = Again(g: Progress) | Whole(p: Packet) | Failed

  /** A packet whose length field is `e` does not fit a buffer of `n` bytes. */
  predicate TooLong(e: seq<byte>, n: nat) {
    ValidLength(e) && 1 + |Encode(Value(e))| + Value(e) > n
  }

  /** The stream, with the bytes read so far in front of it, starts with a packet that cannot be read into `n` bytes. */
  ghost predicate Unreadable(stream: seq<byte>, n: nat) {
    exists h: byte, e: seq<byte> :: Begins(stream, h, e) && (TooLong(e, n) || (|e| == 4 && MoreLength(e)))
  }

  predicate Begins(stream: seq<byte>, h: byte, e: seq<byte>) {
    [h] + e <= stream
  }

  /** State 0: the header byte. */
  method ReadHeader(buf: array<byte>, trp: Transport) returns (rc: int, ghost h: byte)
    requires buf.Length >= 5 && trp.state == 0
    modifies trp`wire, trp`script, trp`state, trp`len, buf
    ensures trp.script == if |old(trp.script)| == 0 then [] else old(trp.script)[1..]
    ensures rc in {-1, 0, 1} && (Enough(old(trp.script), old(trp.wire)) ==> Enough(trp.script, trp.wire))
    ensures rc == -1 ==> |old(trp.script)| > 0 && old(trp.script)[0] < 0
    ensures rc == 0 ==> trp.state == 0 && trp.wire == old(trp.wire)
    ensures rc == 1 ==>
              AtLength(trp.state, trp.len, trp.remLen, trp.multiplier, buf[..], h, [])
              && [h] + trp.wire == old(trp.wire)
  {
    hide At, Enough;
    h := 0;
    ghost var w, s := trp.wire, trp.script;
    rc := trp.Get(buf, 0, 1);
    EnoughAfter(s, w, trp.script, trp.wire, rc);
    if rc == 1 {
      HeaderByte(buf[..], w);
      h := buf[0];
      trp.len := 0;
      trp.state := trp.state + 1;
    }
  }

  lemma HeaderByte(b: seq<byte>, w: seq<byte>)
    requires |b| > 0 && |w| > 0 && At(b, 0, w[..1])
    ensures b[0] == w[0] && w == [w[0]] + w[1..]
  {
    assert b[0..1][0] == w[..1][0];
  }

  /** State 1: the length field, then its shortest form into the buffer. */
  method ReadLength(buf: array<byte>, trp: Transport, ghost h: byte, ghost e: seq<byte>)
    returns (rc: int, ghost e': seq<byte>)
    requires AtLength(trp.state, trp.len, trp.remLen, trp.multiplier, buf[..], h, e)
    modifies trp`wire, trp`script, trp`state, trp`len, trp`remLen, trp`multiplier, buf
    ensures rc in {-1, 0, 1} && LeftOf(old(trp.script), trp.script) && e + old(trp.wire) == e' + trp.wire
    ensures rc == -1 ==> HasError(old(trp.script)) || TooLong(e', buf.Length) || (|e'| == 4 && MoreLength(e'))
    ensures rc == 0 ==> AtLength(trp.state, trp.len, trp.remLen, trp.multiplier, buf[..], h, e')
    ensures rc == 1 ==> AtPayload(trp.state, trp.len, trp.remLen, buf[..], h, e', [])
    ensures Enough(old(trp.script), old(trp.wire)) ==> Enough(trp.script, trp.wire)
    ensures rc >= 0 && |old(trp.script)| > 0 ==> |trp.script| < |old(trp.script)|
  {
    hide Enough, Value, Pow128, Encode, LeftOf, HasError, ValidLength, MoreLength, At;
    var frc;
    frc, e' := DecodeNb(trp, e);
    if frc == -1 {
      return -1, e';
    }
    if frc == 0 {
      return 0, e';
    }
    ValidField(e');
    ghost var b := buf[..];
    var n := EncodeInto(buf, 1, trp.remLen);
    trp.len := 1 + n;
    HeadStored(b, buf[..], h, e');
    if trp.remLen + trp.len > buf.Length {
      return -1, e';
    }
    trp.state := trp.state + 1;
    rc := 1;
  }

  lemma ValidField(e: seq<byte>)
    requires ValidLength(e)
    ensures e != [] && |Encode(Value(e))| <= 4
  {
    FourBytes(e);
    EncodeLength(Value(e));
  }

  lemma HeadStored(b: seq<byte>, c: seq<byte>, h: byte, e: seq<byte>)
    requires |b| == |c| >= 1 + |Encode(Value(e))| && b[0] == h
             && c[..1 + |Encode(Value(e))|] == b[..1] + Encode(Value(e))
    ensures At(c, 0, [h] + Encode(Value(e)) + [])
  {
    hide Encode, Value;
    assert b[..1] == [h];
    EmptyTail([h] + Encode(Value(e)));
  }

  /** State 2: the rest of the packet. */
  method ReadPayload(buf: array<byte>, trp: Transport, ghost h: byte, ghost e: seq<byte>, ghost got: seq<byte>)
    returns (rc: int, ghost got': seq<byte>)
    requires AtPayload(trp.state, trp.len, trp.remLen, buf[..], h, e, got)
    modifies trp`wire, trp`script, trp`state, trp`len, trp`remLen, buf
    ensures LeftOf(old(trp.script), trp.script) && got + old(trp.wire) == got' + trp.wire
    ensures |got'| < Value(e) && rc >= 0 ==> rc == 0 && AtPayload(trp.state, trp.len, trp.remLen, buf[..], h, e, got')
    ensures |got'| == Value(e) ==>
              rc == HeaderType(h) && trp.state == 0
              && At(buf[..], 0, [h] + Encode(Value(e)) + got')
    ensures |got'| <= Value(e)
            && (rc < 0 ==> rc == -1 && trp.state == 0 && |got'| < Value(e) && HasError(old(trp.script)))
    ensures |got'| == Value(e) ==> trp.len == 1 + |Encode(Value(e))| + |got'|
    ensures Enough(old(trp.script), old(trp.wire)) ==> Enough(trp.script, trp.wire)
    ensures |got| < Value(e) && |old(trp.script)| > 0 ==> |trp.script| < |old(trp.script)|
  {
    got' := got;
    LeftOfAll(trp.script);
    PayloadHeader(buf[..], h, e, got);
    hide Enough, Value, Encode, LeftOf, HasError, ValidLength, At, HeaderType;
    if trp.remLen > 0 {
      ghost var w, b, s := trp.wire, buf[..], trp.script;
      var frc := trp.Get(buf, trp.len, trp.remLen);
      LeftOfTail(s, s, trp.script);
      EnoughAfter(s, w, trp.script, trp.wire, frc);
      if frc == -1 {
        ErrorInside(s, s);
        trp.state := 0;
        return -1, got';
      }
      if frc == 0 {
        assert w[..0] == [];
        assert buf[..] == b;
        return 0, got';
      }
      MorePayload(b, buf[..], h, e, got, w, frc);
      got' := got + w[..frc];
      trp.remLen := trp.remLen - frc;
      trp.len := trp.len + frc;
      PayloadHeader(buf[..], h, e, got');
      if trp.remLen > 0 {
        return 0, got';
      }
    }
    rc := HeaderType(buf[0]);
    trp.state := 0;
  }

  lemma PayloadHeader(b: seq<byte>, h: byte, e: seq<byte>, got: seq<byte>)
    requires At(b, 0, [h] + Encode(Value(e)) + got)
    ensures |b| > 0 && b[0] == h
  {
    hide Encode, Value;
    AtSplit(b, 0, [h] + Encode(Value(e)), 1 + |Encode(Value(e))|, got, [h] + Encode(Value(e)) + got);
    AtSplit(b, 0, [h], 1, Encode(Value(e)), [h] + Encode(Value(e)));
    AtByte(b, 0, h);
  }

  lemma MorePayload(b: seq<byte>, c: seq<byte>, h: byte, e: seq<byte>, got: seq<byte>, w: seq<byte>, n: nat)
    requires At(b, 0, [h] + Encode(Value(e)) + got) && |c| == |b| && n <= |w|
    requires var len := 1 + |Encode(Value(e))| + |got|;
             At(c, len, w[..n]) && forall i | 0 <= i < |b| && !(len <= i < len + n) :: c[i] == b[i]
    ensures At(c, 0, [h] + Encode(Value(e)) + (got + w[..n])) && got + w == got + w[..n] + w[n..]
  {
    hide Encode, Value;
    var x, y := [h] + Encode(Value(e)) + got, w[..n];
    assert c[..|x|] == x;
    assert [h] + Encode(Value(e)) + (got + y) == x + y;
    assert c[..|x| + |y|] == x + y;
    assert w == y + w[n..];
  }

  /** MQTTPacket_readnb: goes on with the packet at hand. Whatever it takes from the stream it has in the end as part
      of that packet; it takes nothing behind it. */
  method ReadNb(buf: array<byte>, trp: Transport, ghost g: Progress) returns (rc: int, ghost out: Outcome)
    requires buf.Length >= 5 && Represents(trp, buf, g)
    modifies trp`wire, trp`script, trp`state, trp`len, trp`remLen, trp`multiplier, buf
    ensures LeftOf(old(trp.script), trp.script)
            && (Enough(old(trp.script), old(trp.wire)) ==> Enough(trp.script, trp.wire))
    ensures |old(trp.script)| > 0 && !out.Failed? ==> |trp.script| < |old(trp.script)|
    ensures match out
            case Again(g') => rc == 0 && Represents(trp, buf, g')
              && Consumed(g) + old(trp.wire) == Consumed(g') + trp.wire
            case Whole(p) =>
              && rc == HeaderType(p.header) && trp.state == 0 && ValidLength(p.length) && Value(p.length) == |p.payload|
              && Consumed(g) + old(trp.wire) == Wire(p) + trp.wire && trp.len == |Stored(p)| <= buf.Length
                 && At(buf[..], 0, Stored(p))
            case Failed =>
              rc == -1 && trp.state == 0
                && (HasError(old(trp.script)) || Unreadable(Consumed(g) + old(trp.wire), buf.Length))
  {
    hide Enough, Value, Encode, LeftOf, HasError, ValidLength, MoreLength, At, HeaderType, Unreadable, TooLong, Pow128;
    LeftOfAll(trp.script);
    ghost var s, w := trp.script, trp.wire;
    ghost var h: byte, e: seq<byte>, got: seq<byte> := 0, [], [];
    if trp.state == 0 {
      rc, h := ReadHeader(buf, trp);
      LeftOfTail(s, s, trp.script);
      if rc == -1 {
        ErrorInside(s, s);
        trp.state := 0;
        return -1, Failed;
      }
      if rc == 0 {
        return 0, Again(Start);
      }
    } else {
      h, e := g.header, g.e;
      if g.InPayload? {
        got := g.got;
      }
    }
    if trp.state == 1 {
      ghost var s', w' := trp.script, trp.wire;
      ghost var e0 := e;
      rc, e := ReadLength(buf, trp, h, e0);
      LeftOfOn(s, s', trp.script);
      HeadFirst(h, e0, w', e, trp.wire);
      assert Consumed(g) + w == [h] + e0 + w';
      if rc == -1 {
        ErrorLater(s, s');
        BadStream(h, e, trp.wire, buf.Length);
        trp.state := 0;
        return -1, Failed;
      }
      if rc == 0 {
        return 0, Again(InLength(h, e));
      }
    }
    ghost var s', w', got0 := trp.script, trp.wire, got;
    rc, got := ReadPayload(buf, trp, h, e, got0);
    LeftOfOn(s, s', trp.script);
    BodyNext(h, e, got0, w', got, trp.wire);
    if rc < 0 {
      ErrorLater(s, s');
      out := Failed;
    } else if trp.state == 0 {
      out := Whole(Packet(h, e, got));
    } else {
      out := Again(InPayload(h, e, got));
    }
  }

  lemma LeftOfAll(s: seq<int>)
    ensures LeftOf(s, s)
  {
  }

  lemma LeftOfOn(s: seq<int>, s': seq<int>, s'': seq<int>)
    requires LeftOf(s, s') && LeftOf(s', s'')
    ensures LeftOf(s, s'')
  {
  }

  lemma ErrorLater(s: seq<int>, s': seq<int>)
    requires LeftOf(s, s')
    ensures HasError(s') ==> HasError(s)
  {
    if HasError(s') {
      var i :| 0 <= i < |s'| && s'[i] < 0;
      assert s[|s| - |s'| + i] < 0;
    }
  }

  lemma HeadFirst(h: byte, e: seq<byte>, w: seq<byte>, e': seq<byte>, w': seq<byte>)
    requires e + w == e' + w'
    ensures [h] + e + w == [h] + e' + w'
  {
    assert [h] + e + w == [h] + (e + w);
    assert [h] + e' + w' == [h] + (e' + w');
  }

  lemma BodyNext(h: byte, e: seq<byte>, got: seq<byte>, w: seq<byte>, got': seq<byte>, w': seq<byte>)
    requires got + w == got' + w'
    ensures [h] + e + got + w == [h] + e + got' + w'
    ensures [h] + e + [] == [h] + e
  {
    assert [h] + e + got + w == [h] + e + (got + w);
    assert [h] + e + got' + w' == [h] + e + (got' + w');
  }

  lemma BadStream(h: byte, e: seq<byte>, w: seq<byte>, n: nat)
    ensures TooLong(e, n) || (|e| == 4 && MoreLength(e)) ==> Unreadable([h] + e + w, n)
  {
    hide TooLong, MoreLength;
    assert ([h] + e + w)[..|[h] + e|] == [h] + e;
    assert Begins([h] + e + w, h, e);
  }

  // ----- a stream of packets -----

  /** Packets one behind the other. */
  function Streamed(ps: seq<Packet>): seq<byte> {
    if ps == [] then [] else Wire(ps[0]) + Streamed(ps[1..])
  }

  /** Packets of the standard that a buffer of `n` bytes can hold. */
  predicate Readable(ps: seq<Packet>, n: nat) {
    forall i | 0 <= i < |ps| :: WellFormed(ps[i]) && |Stored(ps[i])| <= n
  }

  /** No length field is the start of another: what is read of one that ends, or of four bytes that do not, is the
      field. */
  lemma FieldUnique(e: seq<byte>, x: seq<byte>, f: seq<byte>, y: seq<byte>)
    requires e + x == f + y && ValidLength(f) && (ValidLength(e) || (|e| == 4 && MoreLength(e)))
    ensures e == f && x == y
  {
    var s := e + x;
    assert forall i | 0 <= i < |e| :: s[i] == e[i];
    assert forall i | 0 <= i < |f| :: s[i] == f[i];
    assert s[|e| - 1] == e[|e| - 1] && s[|f| - 1] == f[|f| - 1];
    assert |e| == |f|;
    assert e == s[..|e|] && x == s[|e|..] && f == s[..|f|] && y == s[|f|..];
  }

  /** A stream can be cut into packets in one way only. */
  lemma WireUnique(p: Packet, x: seq<byte>, q: Packet, y: seq<byte>)
    requires Wire(p) + x == Wire(q) + y && ValidLength(p.length) && ValidLength(q.length)
    requires Value(p.length) == |p.payload| && Value(q.length) == |q.payload|
    ensures p == q && x == y
  {
    hide ValidLength, Value;
    WireTail(p, x);
    WireTail(q, y);
    FieldUnique(p.length, p.payload + x, q.length, q.payload + y);
    var s := p.payload + x;
    assert s == q.payload + y;
    assert p.payload == s[..|p.payload|] == q.payload && x == s[|p.payload|..] == y;
  }

  lemma WireTail(p: Packet, x: seq<byte>)
    ensures (Wire(p) + x)[0] == p.header && (Wire(p) + x)[1..] == p.length + (p.payload + x)
  {
    assert (Wire(p) + x)[1..] == p.length + (p.payload + x);
  }

  /** A stream of readable packets starts with no packet that cannot be read. */
  lemma NotUnreadable(ps: seq<Packet>, n: nat)
    requires Readable(ps, n)
    ensures !Unreadable(Streamed(ps), n)
  {
    hide Value, Encode;
    forall h: byte, e: seq<byte> | Begins(Streamed(ps), h, e) ensures !(TooLong(e, n) || (|e| == 4 && MoreLength(e))) {
      if TooLong(e, n) || (|e| == 4 && MoreLength(e)) {
        StartOfStream(ps, h, e);
        FirstField(ps, n, e);
      }
    }
  }

  lemma StartOfStream(ps: seq<Packet>, h: byte, e: seq<byte>)
    requires Begins(Streamed(ps), h, e)
    ensures ps != [] && e + Streamed(ps)[1 + |e|..] == ps[0].length + (ps[0].payload + Streamed(ps[1..]))
  {
    var s, head := Streamed(ps), [h] + e;
    assert s[..|head|] == head;
    assert head[1..] == e;
    assert s[1..] == e + s[1 + |e|..];
    WireTail(ps[0], Streamed(ps[1..]));
  }

  lemma FirstField(ps: seq<Packet>, n: nat, e: seq<byte>)
    requires Readable(ps, n) && ps != [] && (TooLong(e, n) || (|e| == 4 && MoreLength(e)))
    ensures e + Streamed(ps)[if 1 + |e| <= |Streamed(ps)| then 1 + |e|
            else 0..] != ps[0].length + (ps[0].payload + Streamed(ps[1..]))
  {
    hide Streamed;
    var x := Streamed(ps)[if 1 + |e| <= |Streamed(ps)| then 1 + |e| else 0..];
    var y := ps[0].payload + Streamed(ps[1..]);
    assert WellFormed(ps[0]) && |Stored(ps[0])| <= n;
    if e + x == ps[0].length + y {
      FieldUnique(e, x, ps[0].length, y);
      assert false;
    }
  }

  /** Repeated calls of MQTTPacket_readnb, from a fresh start until the transport has given all its answers. Whatever
      the portions: the packets come back in order, each exactly and with its type, none of the bytes behind them is
      lost, and when the answers were enough to deliver the stream, all of them are back. */
  method ReadStream(buf: array<byte>, trp: Transport, ghost ps: seq<Packet>)
    returns (kinds: seq<int>, frames: seq<seq<byte>>, ghost g: Progress)
    requires buf.Length >= 5 && trp.state == 0 && trp.wire == Streamed(ps) && Readable(ps, buf.Length)
             && !HasError(trp.script)
    modifies trp`wire, trp`script, trp`state, trp`len, trp`remLen, trp`multiplier, buf
    ensures |kinds| == |frames| <= |ps|
    ensures forall i | 0 <= i < |frames| :: frames[i] == Stored(ps[i]) && kinds[i] == HeaderType(ps[i].header)
    ensures Represents(trp, buf, g) && Consumed(g) + trp.wire == Streamed(ps[|frames|..])
    ensures Enough(old(trp.script), old(trp.wire)) ==> |frames| == |ps| && trp.wire == []
  {
    hide *;
    kinds, frames, g := [], [], Start;
    ghost var s := trp.script;
    LeftOfAll(s);
    FreshStart(trp, buf);
    assert ps[0..] == ps;
    while |trp.script| > 0
      invariant |kinds| == |frames| <= |ps|
      invariant forall i | 0 <= i < |frames| :: frames[i] == Stored(ps[i]) && kinds[i] == HeaderType(ps[i].header)
      invariant Represents(trp, buf, g) && Consumed(g) + trp.wire == Streamed(ps[|frames|..])
      invariant LeftOf(s, trp.script) && (Enough(s, old(trp.wire)) ==> Enough(trp.script, trp.wire))
      decreases |trp.script|
    {
      ghost var n := |frames|;
      ErrorLater(s, trp.script);
      ReadableFrom(ps, n, buf.Length);
      NotUnreadable(ps[n..], buf.Length);
      var rc;
      ghost var t, out := trp.script, Failed;
      rc, out := ReadNb(buf, trp, g);
      LeftOfOn(s, t, trp.script);
      if out.Whole? {
        WholeIs(out.p, trp.wire, ps, n, buf.Length);
      }
      if rc == 0 {
        g := out.g;
      } else {
        AtEnd(buf[..], 0, Stored(ps[n]), trp.len);
        assert buf[..][0..trp.len] == buf[..trp.len];
        kinds, frames, g := kinds + [rc], frames + [buf[..trp.len]], Start;
        FreshStart(trp, buf);
      }
    }
    AllDelivered(trp, buf, g, ps, |frames|, buf.Length);
  }

  lemma FreshStart(trp: Transport, buf: array<byte>)
    requires trp.state == 0
    ensures Represents(trp, buf, Start) && Consumed(Start) + trp.wire == trp.wire
  {
  }

  lemma ReadableFrom(ps: seq<Packet>, k: nat, n: nat)
    requires Readable(ps, n) && k <= |ps|
    ensures Readable(ps[k..], n)
  {
    hide WellFormed, Stored;
  }

  /** A packet read from the stream is the one whose turn it is. */
  lemma WholeIs(p: Packet, w: seq<byte>, ps: seq<Packet>, k: nat, n: nat)
    requires ValidLength(p.length) && Value(p.length) == |p.payload| && Readable(ps, n) && k <= |ps|
    requires Wire(p) + w == Streamed(ps[k..])
    ensures k < |ps| && p == ps[k] && w == Streamed(ps[k + 1..]) && HeaderType(p.header) != 0
  {
    assert |Wire(p) + w| > 0;
    assert ps[k..] != [];
    assert ps[k..][0] == ps[k] && ps[k..][1..] == ps[k + 1..];
    assert WellFormed(ps[k]);
    WireUnique(p, w, ps[k], Streamed(ps[k + 1..]));
  }

  /** When no byte is to come, no packet is either. */
  lemma AllDelivered(trp: Transport, buf: array<byte>, g: Progress, ps: seq<Packet>, k: nat, n: nat)
    requires k <= |ps| && Represents(trp, buf, g) && Consumed(g) + trp.wire == Streamed(ps[k..]) && Readable(ps, n)
    ensures |trp.script| == 0 && Enough(trp.script, trp.wire) ==> k == |ps| && trp.wire == []
  {
    if |trp.script| == 0 && Enough(trp.script, trp.wire) {
      assert trp.wire == [] && Consumed(g) + [] == Consumed(g);
      if k < |ps| {
        assert ps[k..][0] == ps[k] && ps[k..][1..] == ps[k + 1..] && WellFormed(ps[k]);
        NotYetWhole(trp, buf, g, ps[k], Streamed(ps[k + 1..]));
      }
    }
  }

  lemma NotYetWhole(trp: Transport, buf: array<byte>, g: Progress, p: Packet, x: seq<byte>)
    requires Represents(trp, buf, g) && ValidLength(p.length) && Value(p.length) == |p.payload|
    ensures Consumed(g) != Wire(p) + x
  {
    hide Encode, Value, Pow128, At;
    var c, w := Consumed(g), Wire(p) + x;
    WireTail(p, x);
    match g
    case Start =>
      assert |w| > 0;
    case InLength(h, e) =>
      assert c[1..] == e;
      StillMore(e, p.length, p.payload + x);
    case InPayload(h, e, got) =>
      assert c[1..] == e + got;
      StillShort(e, got, p.length, p.payload + x);
  }

  lemma StillMore(e: seq<byte>, f: seq<byte>, y: seq<byte>)
    requires MoreLength(e) && ValidLength(f)
    ensures e != f + y
  {
    assert (f + y)[|f| - 1] == f[|f| - 1];
  }

  lemma StillShort(e: seq<byte>, got: seq<byte>, f: seq<byte>, y: seq<byte>)
    requires ValidLength(e) && |got| < Value(e) && ValidLength(f) && |y| >= Value(f)
    ensures e + got != f + y
  {
    hide Value, ValidLength;
    if e + got == f + y {
      FieldUnique(e, got, f, y);
    }
  }

  // ----- the blocking reader -----

  /** A blocking getfn: all `n` bytes, or what is left when the stream ends. */
  method GetAll(trp: Transport, buf: array<byte>, at: nat, n: nat) returns (rc: int)
    requires at + n <= buf.Length
    modifies trp`wire, buf
    ensures rc == (if n <= |old(trp.wire)| then n else |old(trp.wire)|) && trp.wire == old(trp.wire)[rc..]
    ensures At(buf[..], at, old(trp.wire)[..rc])
    ensures forall i | 0 <= i < buf.Length && !(at <= i < at + rc) :: buf[i] == old(buf[i])
  {
    var k := if n <= |trp.wire| then n else |trp.wire|;
    ghost var w := trp.wire;
    forall i | at <= i < at + k {
      buf[i] := trp.wire[i - at];
    }
    trp.wire := trp.wire[k..];
    assert buf[at..at + k] == w[..k];
    rc := k;
  }

  /** The bytes that are taken for the length field: four at most, up to one without the top bit, as far as there
      are. */
  function LengthField(w: seq<byte>, n: nat): (e: seq<byte>)
    ensures |e| <= n && e <= w
  {
    if n == 0 || w == [] then []
    else if w[0] < 128 then [w[0]]
    else [w[0]] + LengthField(w[1..], n - 1)
  }

  lemma {:induction false} FieldMeans(w: seq<byte>, n: nat)
    ensures var e := LengthField(w, n);
            && (forall i | 0 <= i < |e| - 1 :: e[i] >= 128)
            && (e == [] || e[|e| - 1] >= 128 ==> |e| == n || e == w)
    decreases n
  {
    if n > 0 && w != [] && w[0] >= 128 {
      FieldMeans(w[1..], n - 1);
    }
  }

  /** A length field in front of other bytes is the one that is taken. */
  lemma {:induction false} FieldTaken(e: seq<byte>, x: seq<byte>, n: nat)
    requires 1 <= |e| <= n && e[|e| - 1] < 128 && forall i | 0 <= i < |e| - 1 :: e[i] >= 128
    ensures LengthField(e + x, n) == e
    decreases n
  {
    if e[0] >= 128 {
      FieldTaken(e[1..], x, n - 1);
      assert (e + x)[1..] == e[1..] + x;
    }
  }

  /** One byte more of the field. */
  lemma {:induction false} FieldGrows(w: seq<byte>, n: nat, k: nat)
    requires k <= |LengthField(w, n)| && (k > 0 ==> w[k - 1] >= 128)
    ensures k < |LengthField(w, n)| <==> k < n && k < |w|
    ensures k < |LengthField(w, n)| && w[k] < 128 ==> |LengthField(w, n)| == k + 1
    decreases k
  {
    FieldMeans(w, n);
    if k > 0 {
      assert w[0] >= 128 by {
        assert LengthField(w, n)[0] == w[0];
      }
      FieldGrows(w[1..], n - 1, k - 1);
    }
  }

  /** MQTTPacket_decode over the blocking getfn: the value of the bytes it takes; one more is counted when they do not
      end the field. */
  method Decode(trp: Transport) returns (len: nat, value: nat)
    modifies trp`wire
    ensures var e := LengthField(old(trp.wire), 4);
            && value == Value(e) && trp.wire == old(trp.wire)[|e|..]
            && len == if ValidLength(e) then |e| else |e| + 1
  {
    ghost var w, e := trp.wire, LengthField(trp.wire, 4);
    FieldMeans(w, 4);
    var multiplier := 1;
    len, value := 0, 0;
    ghost var k: nat := 0;
    ValueNothing();
    assert e[..0] == [] && w[0..] == w;
    hide Value, Pow128, LengthField;
    var cell := new byte[1];
    var c: byte := 128;
    while c >= 128
      invariant fresh(cell) && cell.Length == 1 && len == k <= |e|
      invariant c >= 128 && k > 0 ==> w[k - 1] >= 128
      invariant c < 128 ==> k == |e| && ValidLength(e)
      invariant multiplier == Pow128(k) && value == Value(e[..k]) && trp.wire == w[k..]
      decreases 5 - k, c
    {
      FieldGrows(w, 4, k);
      len := len + 1;
      if len > 4 {
        assert e[..k] == e;
        return;
      }
      var rc := GetAll(trp, cell, 0, 1);
      if rc != 1 {
        assert e[..k] == e && trp.wire == w[k..];
        return;
      }
      OneByte(cell[..], w[k..]);
      c := cell[0];
      assert c == w[k] == e[k] && e[..k + 1] == e[..k] + [c] && w[k..][1..] == w[k + 1..];
      ValueSnoc(e[..k], c);
      value := value + c % 128 * multiplier;
      multiplier := multiplier * 128;
      k := k + 1;
    }
    assert e[..k] == e;
  }

  /** What a stream starts with for MQTTPacket_read, which does not look at how the length field ends. */
  datatype Taken = Taken(p: Packet, rest: seq<byte>) | NoPacket

  function TakePacket(w: seq<byte>): Taken {
    if w == [] then NoPacket
    else
      var e := LengthField(w[1..], 4);
      var n, y := Value(e), w[1 + |e|..];
      if n > |y| then NoPacket else Taken(Packet(w[0], e, y[..n]), y[n..])
  }

  /** A packet in front of other bytes is the one that is taken. */
  lemma TakesPacket(p: Packet, x: seq<byte>)
    requires WellFormed(p)
    ensures TakePacket(Wire(p) + x) == Taken(p, x)
  {
    var w := Wire(p) + x;
    WireTail(p, x);
    FieldTaken(p.length, p.payload + x, 4);
    assert w[1 + |p.length|..] == p.payload + x;
  }

  /** What is taken is the start of the stream; it is a packet if and only if the stream starts with one. An
      unfinished length field is taken for a finished one: at the end of the stream, and after four bytes. */
  lemma TakenPacket(w: seq<byte>)
    ensures var t := TakePacket(w);
            t.Taken? ==>
              && w == Wire(t.p) + t.rest && Value(t.p.length) == |t.p.payload|
              && (WellFormed(t.p) <==> exists q: Packet, x: seq<byte> :: WellFormed(q) && w == Wire(q) + x)
    ensures TakePacket([0x30, 0x80]) == Taken(Packet(0x30, [0x80], []), [])
    ensures TakePacket([0x30, 0x80, 0x80, 0x80, 0x80]) == Taken(Packet(0x30, [0x80, 0x80, 0x80, 0x80], []), [])
  {
    var t := TakePacket(w);
    if t.Taken? {
      assert w == Wire(t.p) + t.rest;
      forall q: Packet, x: seq<byte> | WellFormed(q) && w == Wire(q) + x ensures q == t.p {
        TakesPacket(q, x);
      }
    }
    ValueZeros();
    assert LengthField([0x80], 4) == [0x80];
    assert [0x30, 0x80][1..] == [0x80] && [0x30, 0x80][2..] == [];
    var z: seq<byte> := [0x80, 0x80, 0x80, 0x80];
    assert z[1..] == [0x80, 0x80, 0x80] && z[1..][1..] == [0x80, 0x80] && z[1..][1..][1..] == [0x80];
    assert LengthField([0x80], 1) == [0x80];
    assert LengthField([0x80, 0x80], 2) == [0x80, 0x80];
    assert LengthField([0x80, 0x80, 0x80], 3) == [0x80, 0x80, 0x80];
    assert LengthField(z, 4) == z;
    assert [0x30, 0x80, 0x80, 0x80, 0x80][1..] == z && [0x30, 0x80, 0x80, 0x80, 0x80][5..] == [];
  }

  lemma ValueZeros()
    ensures Value([0x80]) == Value([0x80, 0x80, 0x80, 0x80]) == 0
  {
    assert [0x80][1..] == [] && [0x80, 0x80][1..] == [0x80] && [0x80, 0x80, 0x80][1..] == [0x80, 0x80];
    assert [0x80, 0x80, 0x80, 0x80][1..] == [0x80, 0x80, 0x80];
    assert Value([0x80]) == 0;
    assert Value([0x80, 0x80]) == 0;
    assert Value([0x80, 0x80, 0x80]) == 0;
  }

  /** MQTTPacket_read on any stream: what it takes, with the length field in its shortest form, when that fits and is
      all there. */
  method ReadBlocking(buf: array<byte>, trp: Transport) returns (rc: int)
    requires buf.Length >= 5
    modifies trp`wire, buf
    ensures var t := TakePacket(old(trp.wire));
            if t.Taken? && |Stored(t.p)| <= buf.Length
            then rc == HeaderType(t.p.header) && trp.wire == t.rest && At(buf[..], 0, Stored(t.p))
            else rc == -1
    ensures old(trp.wire) == [] ==> trp.wire == []
  {
    rc := -1;
    ghost var w := trp.wire;
    var n := GetAll(trp, buf, 0, 1);
    if n != 1 {
      return;
    }
    HeaderByte(buf[..], w);
    ghost var e := LengthField(w[1..], 4);
    hide Value, Encode, At, ValidLength, HeaderType, LengthField;
    var count, remLen := Decode(trp);
    assert trp.wire == w[1 + |e|..];
    ShortField(e);
    ghost var b := buf[..];
    var k := EncodeInto(buf, 1, remLen);
    HeadStored(b, buf[..], w[0], e);
    var len := 1 + k;
    if remLen + len > buf.Length {
      return;
    }
    ghost var c, y := buf[..], trp.wire;
    if remLen != 0 {
      n := GetAll(trp, buf, len, remLen);
      if n != remLen {
        return;
      }
    }
    PayloadStored(c, buf[..], w[0], y, remLen, len);
    rc := HeaderType(buf[0]);
  }

  lemma ShortField(e: seq<byte>)
    requires |e| <= 4
    ensures 1 <= |Encode(Value(e))| <= 4
  {
    FourBytes(e);
    EncodeLength(Value(e));
  }

  lemma PayloadStored(c: seq<byte>, d: seq<byte>, h: byte, y: seq<byte>, n: nat, len: nat)
    requires n <= |y| && At(c, 0, [h] + Encode(n) + []) && |d| == |c| && len == 1 + |Encode(n)|
    requires n == 0 ==> d == c
    requires n > 0 ==> At(d, len, y[..n]) && forall i | 0 <= i < len :: d[i] == c[i]
    ensures At(d, 0, [h] + Encode(n) + y[..n]) && |d| > 0 && d[0] == h && (n == 0 ==> y[n..] == y)
  {
    hide Encode;
    var head := [h] + Encode(n);
    assert head + [] == head && c[..len] == head;
    if n == 0 {
      assert y[..n] == [];
    } else {
      assert d[..len] == head;
      assert d[..len + n] == head + y[..n];
    }
    assert d[0] == d[..len][0];
  }

  // ----- both readers -----

  /** Repeated calls of MQTTPacket_read until one fails: all packets of the stream, in order. */
  method ReadAllBlocking(buf: array<byte>, trp: Transport, ghost ps: seq<Packet>)
    returns (kinds: seq<int>, ghost frames: seq<seq<byte>>)
    requires buf.Length >= 5 && trp.wire == Streamed(ps) && Readable(ps, buf.Length)
    modifies trp`wire, buf
    ensures |kinds| == |frames| == |ps| && trp.wire == []
    ensures forall i | 0 <= i < |ps| :: frames[i] == Stored(ps[i]) && kinds[i] == HeaderType(ps[i].header)
  {
    hide *;
    kinds, frames := [], [];
    var reading := true;
    assert ps[0..] == ps;
    while reading
      invariant |kinds| == |frames| <= |ps| && (!reading ==> |frames| == |ps| && trp.wire == [])
      invariant reading ==> trp.wire == Streamed(ps[|frames|..])
      invariant forall i | 0 <= i < |frames| :: frames[i] == Stored(ps[i]) && kinds[i] == HeaderType(ps[i].header)
      decreases |ps| - |frames|, reading
    {
      NextTaken(ps, |frames|, buf.Length);
      var rc := ReadBlocking(buf, trp);
      if rc == -1 {
        reading := false;
      } else {
        ghost var p := ps[|frames|];
        AtEnd(buf[..], 0, Stored(p), |Stored(p)|);
        kinds, frames := kinds + [rc], frames + [buf[..][0..|Stored(p)|]];
      }
    }
  }

  /** What MQTTPacket_read takes from a stream of readable packets. */
  lemma NextTaken(ps: seq<Packet>, k: nat, n: nat)
    requires Readable(ps, n) && k <= |ps|
    ensures var t := TakePacket(Streamed(ps[k..]));
            if k == |ps| then t == NoPacket && Streamed(ps[k..]) == []
            else t == Taken(ps[k], Streamed(ps[k + 1..])) && |Stored(ps[k])| <= n && HeaderType(ps[k].header) > 0
  {
    if k == |ps| {
      assert ps[k..] == [];
    } else {
      assert ps[k..][0] == ps[k] && ps[k..][1..] == ps[k + 1..];
      TakesPacket(ps[k], Streamed(ps[k + 1..]));
    }
  }

  /** The two readers agree on every stream of readable packets: whatever the portions, what the resumable one has
      returned is what the blocking one returns first, and all of it when the answers deliver the stream. */
  method ReadBoth(buf: array<byte>, trp: Transport, buf': array<byte>, trp': Transport, ghost ps: seq<Packet>)
    returns (kinds: seq<int>, ghost frames: seq<seq<byte>>, kinds': seq<int>, ghost frames': seq<seq<byte>>)
    requires buf.Length >= 5 && trp.state == 0 && trp.wire == Streamed(ps) && Readable(ps, buf.Length)
             && !HasError(trp.script)
    requires buf'.Length >= 5 && trp' != trp && buf' != buf && trp'.wire == trp.wire && Readable(ps, buf'.Length)
    modifies trp`wire, trp`script, trp`state, trp`len, trp`remLen, trp`multiplier, buf, trp'`wire, buf'
    ensures kinds <= kinds' && frames <= frames'
    ensures Enough(old(trp.script), old(trp.wire)) ==>
              kinds == kinds' && frames == frames' && trp.wire == trp'.wire == []
  {
    hide *;
    var got;
    ghost var g;
    kinds, got, g := ReadStream(buf, trp, ps);
    frames := got;
    kinds', frames' := ReadAllBlocking(buf', trp', ps);
    assert forall i | 0 <= i < |kinds| :: kinds[i] == kinds'[i];
    assert forall i | 0 <= i < |frames| :: frames[i] == frames'[i];
  }
}
