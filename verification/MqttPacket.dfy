/** MQTTPacket.c: the remaining-length field, two-byte integers and strings, and cursors over a buffer. */
module MqttPacket {
  import opened Bytes

  const MAX_LENGTH := 268_435_455

  // ----- remaining length -----

  /** The remaining-length field of MQTT 3.1.1, section 2.2.3: seven bits a byte, the top bit announces another. */
  function Encode(n: nat): (e: seq<byte>)
    ensures 1 <= |e|
  {
    if n < 128 then [n] else [n % 128 + 128] + Encode(n / 128)
  }

  /** The number that length bytes stand for, whether or not they are as few as possible. */
  function Value(e: seq<byte>): nat {
    if e == [] then 0 else e[0] % 128 + 128 * Value(e[1..])
  }

  /** One to four bytes, all but the last with the top bit. */
  predicate ValidLength(e: seq<byte>) {
    1 <= |e| <= 4 && e[|e| - 1] < 128 && forall i | 0 <= i < |e| - 1 :: e[i] >= 128
  }

  function Pow128(k: nat): (p: nat)
    ensures p > 0
  {
    if k == 0 then 1 else 128 * Pow128(k - 1)
  }

  /** An encoding stands for its number, and has four bytes at most for the lengths the standard allows. */
  lemma {:induction false} EncodeValue(n: nat)
    ensures Value(Encode(n)) == n
    ensures n < 128 ==> |Encode(n)| == 1
    ensures n >= 128 ==> |Encode(n)| == 1 + |Encode(n / 128)|
    ensures Encode(n)[|Encode(n)| - 1] < 128 && forall i | 0 <= i < |Encode(n)| - 1 :: Encode(n)[i] >= 128
    decreases n
  {
    var e := Encode(n);
    if n < 128 {
      assert e[1..] == [];
      assert Value(e[1..]) == 0;
    } else {
      EncodeValue(n / 128);
      assert e[1..] == Encode(n / 128);
      assert e[|e| - 1] == Encode(n / 128)[|e| - 2];
    }
  }

  /** How many bytes an encoding takes. */
  lemma EncodeLength(n: nat)
    requires n <= MAX_LENGTH
    ensures |Encode(n)| == if n < 128 then 1 else if n < 16384 then 2 else if n < 2_097_152 then 3 else 4
    ensures ValidLength(Encode(n))
  {
    EncodeValue(n);
    EncodeValue(n / 128);
    EncodeValue(n / 128 / 128);
    EncodeValue(n / 128 / 128 / 128);
  }

  /** The boundaries of the table in section 2.2.3, and its example 321. */
  lemma EncodeExamples()
    ensures Encode(0) == [0] && Encode(127) == [0x7F] && Encode(128) == [0x80, 0x01] && Encode(321) == [193, 2]
    ensures Encode(16383) == [0xFF, 0x7F] && Encode(16384) == [0x80, 0x80, 0x01]
    ensures Encode(2_097_152) == [0x80, 0x80, 0x80, 0x01] && Encode(268_435_455) == [0xFF, 0xFF, 0xFF, 0x7F]
  {
    EncodeHead(128, [1]);
    EncodeHead(321, [2]);
    EncodeHead(16383, [0x7F]);
    EncodeHead(16384, [0x80, 0x01]);
    EncodeHead(2_097_152, [0x80, 0x80, 0x01]);
    EncodeHead(2_097_151, [0xFF, 0x7F]);
    EncodeHead(268_435_455, [0xFF, 0xFF, 0x7F]);
  }

  lemma EncodeHead(n: nat, rest: seq<byte>)
    requires n >= 128 && Encode(n / 128) == rest
    ensures Encode(n) == [n % 128 + 128] + rest
  {
  }

  lemma {:induction false} ValueBound(e: seq<byte>)
    ensures Value(e) < Pow128(|e|)
    decreases |e|
  {
    if e != [] {
      ValueBound(e[1..]);
    }
  }

  lemma FourBytes(e: seq<byte>)
    requires |e| <= 4
    ensures Value(e) <= MAX_LENGTH
  {
    ValueBound(e);
    assert Pow128(4) == 268_435_456 && Pow128(3) == 2_097_152 && Pow128(2) == 16384 && Pow128(1) == 128;
  }

  /** One more byte at the end. */
  lemma {:induction false} ValueSnoc(e: seq<byte>, b: byte)
    ensures Value(e + [b]) == Value(e) + b % 128 * Pow128(|e|) && Pow128(|e| + 1) == Pow128(|e|) * 128
    decreases |e|
  {
    if e == [] {
      assert [b][1..] == [];
      assert Value([b]) == b % 128;
    } else {
      ValueSnoc(e[1..], b);
      assert (e + [b])[1..] == e[1..] + [b];
      MulMove(b % 128, Pow128(|e| - 1));
    }
  }

  lemma MulMove(m: nat, p: nat)
    ensures 128 * (m * p) == m * (128 * p)
  {
  }

  /** MQTTPacket_len: the packet size a serializer asks for. */
  function PacketLen(remLen: nat): nat {
    var r := remLen + 1;
    if r < 128 then r + 1
    else if r < 16384 then r + 2
    else if r < 2_097_151 then r + 3
    else r + 4
  }

  /** It is never less than the packet takes, and one more at exactly four lengths. */
  lemma PacketLenExact(r: nat)
    requires r <= MAX_LENGTH
    ensures PacketLen(r) == 1 + |Encode(r)| + r + if r in {127, 16383, 2_097_150, 2_097_151} then 1 else 0
  {
    EncodeLength(r);
  }

  /** MQTTPacket_encode into a buffer. */
  method EncodeInto(buf: array<byte>, at: nat, length: nat) returns (rc: nat)
    requires at + |Encode(length)| <= buf.Length
    modifies buf
    ensures rc == |Encode(length)| && buf[..at + rc] == old(buf[..at]) + Encode(length)
    ensures forall i | at + rc <= i < buf.Length :: buf[i] == old(buf[i])
  {
    rc := 0;
    var length := length;
    ghost var all := Encode(length);
    var d: byte := length % 128;
    EncodeFirst(length);
    length := length / 128;
    while length > 0
      invariant rc < |all| && all[rc + 1..] == (if length > 0 then Encode(length) else [])
      invariant all[rc] == if length > 0 then d + 128 else d
      invariant forall i | 0 <= i < rc :: buf[at + i] == all[i]
      invariant forall i | 0 <= i < buf.Length && !(at <= i < at + rc) :: buf[i] == old(buf[i])
      decreases length
    {
      buf[at + rc] := d + 128;
      rc := rc + 1;
      d := length % 128;
      EncodeFirst(length);
      assert all[rc] == all[rc..][0] && all[rc + 1..] == all[rc..][1..];
      length := length / 128;
    }
    buf[at + rc] := d;
    rc := rc + 1;
  }

  lemma EncodeFirst(n: nat)
    ensures Encode(n)[0] == if n / 128 > 0 then n % 128 + 128 else n % 128
    ensures Encode(n)[1..] == if n / 128 > 0 then Encode(n / 128) else []
  {
  }

  // ----- reading the length field -----

  /** How many bytes a decoder takes from a source that holds `s`, when it took `k` already: it stops behind a byte
      without the top bit, after four bytes, or when the source is exhausted. */
  function Taken(s: seq<byte>, k: nat): (n: nat)
    requires k <= 4 && k <= |s|
    ensures k <= n <= 4 && n <= |s|
    decreases 4 - k
  {
    if k == 4 || k == |s| then k else if s[k] >= 128 then Taken(s, k + 1) else k + 1
  }

  /** The length bytes at the start of `s`. */
  function Field(s: seq<byte>): seq<byte> {
    s[..Taken(s, 0)]
  }

  /** The value and the count MQTTPacket_decode gives; a failed attempt counts. */
  function Decoded(s: seq<byte>): (nat, nat) {
    (Value(Field(s)), if ValidLength(Field(s)) then |Field(s)| else |Field(s)| + 1)
  }

  lemma {:induction false} TakenOn(s: seq<byte>, k: nat)
    requires k <= 4 && k <= |s| && forall i | 0 <= i < k :: s[i] >= 128
    ensures Taken(s, 0) == Taken(s, k)
    decreases k
  {
    if k > 0 {
      TakenOn(s, k - 1);
    }
  }

  /** Behind valid length bytes the decoder stops, with their number and their value. */
  lemma DecodedValid(e: seq<byte>, rest: seq<byte>)
    requires ValidLength(e)
    ensures Field(e + rest) == e && Decoded(e + rest) == (Value(e), |e|)
  {
    var s := e + rest;
    TakenOn(s, |e| - 1);
    assert s[..|e|] == e;
  }

  /** Decoding inverts encoding, whatever follows in the buffer. */
  lemma DecodeEncode(n: nat, rest: seq<byte>)
    requires n <= MAX_LENGTH
    ensures Decoded(Encode(n) + rest) == (n, |Encode(n)|)
  {
    EncodeLength(n);
    EncodeValue(n);
    DecodedValid(Encode(n), rest);
  }

  /** MQTTPacket_decodeBuf: the length field at `at`. */
  method DecodeBuf(buf: array<byte>, at: nat) returns (len: nat, value: nat)
    requires at <= buf.Length && (at + 4 <= buf.Length || ValidLength(Field(buf[at..])))
    ensures (value, len) == Decoded(buf[at..])
    ensures len <= 5 && (len == 5 <==> at + 4 <= buf.Length && forall i | at <= i < at + 4 :: buf[i] >= 128)
  {
    hide Value, Pow128;
    ghost var s := buf[at..];
    var multiplier := 1;
    len, value := 0, 0;
    ValueNothing();
    var c: byte := 128;
    while c >= 128
      invariant len <= 4 && len <= |s| && multiplier == Pow128(len) && value == Value(s[..len])
      invariant c >= 128 ==> forall i | 0 <= i < len :: s[i] >= 128
      invariant c < 128 ==> Field(s) == s[..len] && ValidLength(s[..len])
      decreases c >= 128, 4 - len
    {
      TakenOn(s, len);
      len := len + 1;
      if len > 4 {
        assert forall i | 0 <= i < 4 :: buf[at + i] == s[i];
        return;
      }
      assert len <= |s|;
      c := buf[at + len - 1];
      assert c == s[len - 1] && s[..len] == s[..len - 1] + [c];
      ValueSnoc(s[..len - 1], c);
      value := value + c % 128 * multiplier;
      multiplier := multiplier * 128;
    }
  }

  lemma ValueNothing()
    ensures Value([]) == 0 && Pow128(0) == 1
  {
  }
}
