/** Bytes, sectors and the little-endian words stored in them. */
module Bytes {

  type byte = x: int | 0 <= x < 256

  type dword = x: nat | x < 0x1_0000_0000

  /** A disk sector. The configured sector size is 512 bytes (ffconf.h, `_MIN_SS` and `_MAX_SS`). */
  type Sector = s: seq<byte> | |s| == 512 witness seq(512, _ => 0)

  function ZeroSector(): Sector {
    seq(512, i => 0)
  }

  /** LD_WORD: the 16-bit little-endian word at offset `o`. */
  function LdWord(s: seq<byte>, o: nat): (w: nat)
    requires o + 2 <= |s|
    ensures w < 0x1_0000
  {
    s[o] as int + 0x100 * s[o + 1] as int
  }

  /** LD_DWORD: the 32-bit little-endian word at offset `o`. */
  function LdDword(s: seq<byte>, o: nat): (w: nat)
    requires o + 4 <= |s|
    ensures w < 0x1_0000_0000
  {
    s[o] as int + 0x100 * s[o + 1] as int + 0x1_0000 * s[o + 2] as int + 0x100_0000 * s[o + 3] as int
  }

  /** ST_WORD: the two bytes of the low 16 bits of `v`. */
  function StWord(v: nat): (b: seq<byte>)
    ensures |b| == 2 && LdWord(b, 0) == v % 0x1_0000
  {
    assert v / 0x100 / 0x100 == v / 0x1_0000;
    [v % 0x100, v / 0x100 % 0x100]
  }

  /** ST_DWORD: the four bytes of the low 32 bits of `v`. */
  function StDword(v: nat): (b: seq<byte>)
    ensures |b| == 4 && LdDword(b, 0) == v % 0x1_0000_0000
  {
    assert v / 0x100 / 0x100 == v / 0x1_0000;
    assert v / 0x1_0000 / 0x100 == v / 0x100_0000;
    assert v / 0x100_0000 / 0x100 == v / 0x1_0000_0000;
    [v % 0x100, v / 0x100 % 0x100, v / 0x1_0000 % 0x100, v / 0x100_0000 % 0x100]
  }

  /** The low byte comes first, in loading and in storing. */
  lemma LittleEndian(v: nat, w: nat)
    requires v < 0x1_0000 && w < 0x1_0000_0000
    ensures LdWord([0x34, 0x12], 0) == 0x1234 && LdDword([0x78, 0x56, 0x34, 0x12], 0) == 0x1234_5678
    ensures StWord(0x1234) == [0x34, 0x12] && StDword(0x1234_5678) == [0x78, 0x56, 0x34, 0x12]
    ensures var b := StWord(v); b[0] as int + 0x100 * b[1] as int == v
    ensures var b := StDword(w);
            b[0] as int + 0x100 * b[1] as int + 0x1_0000 * b[2] as int + 0x100_0000 * b[3] as int == w
  {
  }

  /** `b` with the bytes from `k` on replaced by `bs`. */
  function Splice(b: seq<byte>, k: nat, bs: seq<byte>): (r: seq<byte>)
    requires k + |bs| <= |b|
    ensures |r| == |b|
    ensures forall i | 0 <= i < |b| :: r[i] == if k <= i < k + |bs| then bs[i - k] else b[i]
  {
    b[..k] + bs + b[k + |bs|..]
  }

  /** A word depends on its own bytes only. */
  lemma LdSlice(s: seq<byte>, o: nat)
    ensures o + 2 <= |s| ==> LdWord(s, o) == LdWord(s[o..o + 2], 0)
    ensures o + 4 <= |s| ==> LdDword(s, o) == LdDword(s[o..o + 4], 0)
  {
  }
}
