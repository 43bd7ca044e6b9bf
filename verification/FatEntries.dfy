/** FAT entries packed as 12, 16 or 32 bits: the value of an entry and the bytes a store writes. */
module FatEntries {
  import opened Bytes
  import opened Geometry

  /** Offset of the first byte of entry `c`. */
  function EntryOffset(t: FatType, c: nat): nat {
    match t
    case Fat12 => c + c / 2
    case Fat16 => 2 * c
    case Fat32 => 4 * c
  }

  function EntrySize(t: FatType): nat {
    if t == Fat32 then 4 else 2
  }

  /** Every byte that one of `n` entries touches lies within the size a mount asks for, and the last
      entry touches the last of these bytes: the bound is exact. */
  lemma EntryInside(t: FatType, n: nat, c: nat)
    requires c < n
    ensures EntryOffset(t, c) + EntrySize(t) <= FatBytesNeeded(t, n)
    ensures c == n - 1 ==> EntryOffset(t, c) + EntrySize(t) == FatBytesNeeded(t, n)
  {
    if t == Fat12 {
      Needed12(n);
      Needed12(c + 1);
    }
  }

  lemma Needed12(n: nat)
    requires n > 0
    ensures FatBytesNeeded(Fat12, n) == n - 1 + (n - 1) / 2 + 2
  {
    var h, r := n / 2, n % 2;
    assert n == 2 * h + r && n * 3 / 2 == 3 * h + r;
  }

  /** The value of entry `c`: 12, 16 or 28 bits. */
  function Entry(t: FatType, b: seq<byte>, c: nat): nat
    requires EntryOffset(t, c) + EntrySize(t) <= |b|
  {
    var k := EntryOffset(t, c);
    match t
    case Fat12 => if c % 2 == 1 then LdWord(b, k) / 0x10 else LdWord(b, k) % 0x1000
    case Fat16 => LdWord(b, k)
    case Fat32 => LdDword(b, k) % 0x1000_0000
  }

  /** The four bits of a FAT32 entry that do not belong to its value. */
  function ReservedBits(b: seq<byte>, c: nat): nat
    requires 4 * c + 4 <= |b|
  {
    b[4 * c + 3] as int / 0x10
  }

  /** The first `n` entries as numbers. */
  function Table(t: FatType, n: nat, b: seq<byte>): (fat: seq<nat>)
    requires FatBytesNeeded(t, n) <= |b|
    ensures |fat| == n
  {
    seq(n, c requires 0 <= c < n => EntryInside(t, n, c); Entry(t, b, c))
  }

  /** Packed entries byte by byte: 0x123 and 0x456 in three bytes, 0x1234 in two, 0x2345678 in four. */
  lemma Packed()
    ensures Entry(Fat12, [0x23, 0x61, 0x45], 0) == 0x123 && Entry(Fat12, [0x23, 0x61, 0x45], 1) == 0x456
    ensures Entry(Fat16, [0x78, 0x56, 0x34, 0x12], 0) == 0x5678 && Entry(Fat16, [0x78, 0x56, 0x34, 0x12], 1) == 0x1234
    ensures Entry(Fat32, [0x78, 0x56, 0x34, 0xF2], 0) == 0x234_5678 && ReservedBits([0x78, 0x56, 0x34, 0xF2], 0) == 15
  {
  }

  // ----- one entry stored -----

  /** Bitwise or of two 4-bit numbers. */
  function OrNibble(a: nat, b: nat): (r: nat)
    requires a < 16 && b < 16
    ensures r < 16
    ensures a == 0 ==> r == b
  {
    ((a as bv4) | (b as bv4)) as nat
  }

  /** The first byte of FAT12 entry `c` after storing `v`; an odd entry shares it with its predecessor. */
  function Low12(c: nat, v: nat, old0: byte): byte {
    if c % 2 == 1 then old0 as int % 0x10 + v % 0x10 * 0x10 else v % 0x100
  }

  /** The second byte of FAT12 entry `c` after storing `v`; an even entry shares it with its successor. */
  function High12(c: nat, v: nat, old1: byte): byte {
    if c % 2 == 1 then v / 0x10 % 0x100 else old1 as int / 0x10 * 0x10 + v / 0x100 % 0x10
  }

  /** The last byte of a FAT32 entry after storing `v`. */
  function Top32(v: nat, old3: byte): byte
    requires v < 0x1_0000_0000
  {
    v / 0x100_0000 % 0x10 + OrNibble(v / 0x1000_0000, old3 as int / 0x10) * 0x10
  }

  /** The bytes of the FAT after storing `v` in entry `c`. */
  function Stored(t: FatType, b: seq<byte>, c: nat, v: nat): (r: seq<byte>)
    requires EntryOffset(t, c) + EntrySize(t) <= |b| && v < 0x1_0000_0000
    ensures |r| == |b|
  {
    var k := EntryOffset(t, c);
    match t
    case Fat12 => Splice(Splice(b, k, [Low12(c, v, b[k])]), k + 1, [High12(c, v, b[k + 1])])
    case Fat16 => Splice(b, k, StWord(v))
    case Fat32 => Splice(b, k, [v % 0x100, v / 0x100 % 0x100, v / 0x1_0000 % 0x100, Top32(v, b[k + 3])])
  }

  /** Entries stored, byte by byte: the neighbour that shares a byte and the top four bits of FAT32 stay. */
  lemma Repacked()
    ensures Stored(Fat12, [0x23, 0x61, 0x45], 0, 0xABC) == [0xBC, 0x6A, 0x45]
    ensures Stored(Fat12, [0x23, 0x61, 0x45], 1, 0xABC) == [0x23, 0xC1, 0xAB]
  {
    StoredBytes();
    hide Low12, High12;
  }

  /** And of the wider entries. */
  lemma RepackedWide()
    ensures Stored(Fat16, [0x78, 0x56, 0x34, 0x12], 1, 0xABCD) == [0x78, 0x56, 0xCD, 0xAB]
    ensures Stored(Fat32, [0x78, 0x56, 0x34, 0xF2], 0, 0xABC_DEF0) == [0xF0, 0xDE, 0xBC, 0xFA]
  {
    StoredBytes();
    hide Top32, StWord;
  }

  lemma StoredBytes()
    ensures Low12(1, 0xABC, 0x61) == 0xC1 && High12(1, 0xABC, 0x45) == 0xAB
    ensures Low12(0, 0xABC, 0x23) == 0xBC && High12(0, 0xABC, 0x61) == 0x6A
    ensures Top32(0xABC_DEF0, 0xF2) == 0xFA && StWord(0xABCD) == [0xCD, 0xAB]
  {
  }

  /** The nibbles of the two bytes that hold a FAT12 entry. */
  lemma Nibbles(lo: byte, hi: byte)
    ensures (lo as int + 0x100 * hi as int) / 0x10 == lo as int / 0x10 + 0x10 * hi as int
    ensures (lo as int + 0x100 * hi as int) % 0x1000 == lo as int + 0x100 * (hi as int % 0x10)
  {
  }

  lemma Split12(c: nat, v: nat, old0: byte, old1: byte)
    ensures var lo, hi := Low12(c, v, old0) as int, High12(c, v, old1) as int;
            if c % 2 == 1 then lo / 0x10 + 0x10 * hi == v % 0x1000 && lo % 0x10 == old0 as int % 0x10
            else lo + 0x100 * (hi % 0x10) == v % 0x1000 && hi / 0x10 == old1 as int / 0x10
  {
    assert v / 0x10 / 0x100 == v / 0x1000;
    assert v / 0x100 / 0x10 == v / 0x1000;
    if c % 2 == 1 {
      assert Low12(c, v, old0) as int / 0x10 == v % 0x10;
    } else {
      assert High12(c, v, old1) as int % 0x10 == v / 0x100 % 0x10;
    }
  }

  /** A FAT12 entry by the nibbles of its two bytes. */
  lemma Entry12Is(b: seq<byte>, x: nat)
    requires x + x / 2 + 2 <= |b|
    ensures var lo, hi := b[x + x / 2] as int, b[x + x / 2 + 1] as int;
            Entry(Fat12, b, x) == if x % 2 == 1 then lo / 0x10 + 0x10 * hi else lo + 0x100 * (hi % 0x10)
  {
    Nibbles(b[x + x / 2], b[x + x / 2 + 1]);
  }

  lemma Stored12Bytes(b: seq<byte>, c: nat, v: nat)
    requires c + c / 2 + 2 <= |b| && v < 0x1_0000_0000
    ensures var k, b' := c + c / 2, Stored(Fat12, b, c, v);
            && b'[k] == Low12(c, v, b[k]) && b'[k + 1] == High12(c, v, b[k + 1])
            && forall i | 0 <= i < |b| && i != k && i != k + 1 :: b'[i] == b[i]
  {
    hide Low12, High12;
  }

  /** What FAT12 entry `x` reads after entry `c` was stored, next to it and elsewhere. */
  lemma Stored12(b: seq<byte>, c: nat, v: nat, x: nat)
    requires c + c / 2 + 2 <= |b| && x + x / 2 + 2 <= |b| && v < 0x1_0000_0000
    ensures Entry(Fat12, Stored(Fat12, b, c, v), x) == if x == c then v % 0x1000 else Entry(Fat12, b, x)
  {
    var k, j := c + c / 2, x + x / 2;
    var b' := Stored(Fat12, b, c, v);
    hide Stored, Entry, Low12, High12;
    Stored12Bytes(b, c, v);
    Split12(c, v, b[k], b[k + 1]);
    Entry12Is(b, x);
    Entry12Is(b', x);
    if x == c + 1 && c % 2 == 0 {
      assert j == k + 1;
    } else if x + 1 == c && c % 2 == 1 {
      assert j + 1 == k;
    } else if x != c {
      assert j + 1 < k || j > k + 1;
    }
  }

  lemma Stored16(b: seq<byte>, c: nat, v: nat, x: nat)
    requires c * 2 + 2 <= |b| && x * 2 + 2 <= |b| && v < 0x1_0000_0000
    ensures Entry(Fat16, Stored(Fat16, b, c, v), x) == if x == c then v % 0x1_0000 else Entry(Fat16, b, x)
  {
    assert v / 0x100 / 0x100 == v / 0x1_0000;
  }

  /** The four bytes of a double word with its top four bits replaced. */
  lemma Bytes32(v: nat, top: nat)
    requires top < 0x10
    ensures (v % 0x100 + 0x100 * (v / 0x100 % 0x100) + 0x1_0000 * (v / 0x1_0000 % 0x100)
             + 0x100_0000 * (v / 0x100_0000 % 0x10 + top * 0x10)) % 0x1000_0000 == v % 0x1000_0000
    ensures (v / 0x100_0000 % 0x10 + top * 0x10) / 0x10 == top
  {
    assert v / 0x100 / 0x100 == v / 0x1_0000;
    assert v / 0x1_0000 / 0x100 == v / 0x100_0000;
    assert v / 0x100_0000 / 0x10 == v / 0x1000_0000;
  }

  lemma Stored32(b: seq<byte>, c: nat, v: nat, x: nat)
    requires c * 4 + 4 <= |b| && x * 4 + 4 <= |b| && v < 0x1_0000_0000
    ensures Entry(Fat32, Stored(Fat32, b, c, v), x) == if x == c then v % 0x1000_0000 else Entry(Fat32, b, x)
    ensures x != c || v < 0x1000_0000 ==> ReservedBits(Stored(Fat32, b, c, v), x) == ReservedBits(b, x)
  {
    var b' := Stored(Fat32, b, c, v);
    if x != c {
      assert b'[4 * x..4 * x + 4] == b[4 * x..4 * x + 4];
      assert forall i :: 4 * x <= i < 4 * x + 4 ==> b'[i] == b[i];
    } else {
      var top := OrNibble(v / 0x1000_0000, b[4 * c + 3] as int / 0x10);
      Bytes32(v, top);
      assert b'[4 * x] as int == v % 0x100 && b'[4 * x + 1] as int == v / 0x100 % 0x100;
      assert b'[4 * x + 2] as int == v / 0x1_0000 % 0x100;
    }
  }

  /** Storing a value in one entry changes that entry to the part of the value it can hold, changes no
      other entry, and keeps the reserved bits of FAT32. */
  lemma StoredTable(t: FatType, n: nat, b: seq<byte>, c: nat, v: nat)
    requires FatBytesNeeded(t, n) <= |b| && c < n && v < 0x1_0000_0000
    requires EntryOffset(t, c) + EntrySize(t) <= |b|
    ensures Table(t, n, Stored(t, b, c, v)) == Table(t, n, b)[c := v % (EndMark(t) + 1)]
    ensures t == Fat32 && v < 0x1000_0000 ==>
              forall x: nat | x < n :: ReservedBits(Stored(t, b, c, v), x) == ReservedBits(b, x)
  {
    var b' := Stored(t, b, c, v);
    forall x: nat | x < n
      ensures Table(t, n, b')[x] == if x == c then v % (EndMark(t) + 1) else Table(t, n, b)[x]
      ensures t == Fat32 && v < 0x1000_0000 ==> ReservedBits(b', x) == ReservedBits(b, x)
    {
      EntryInside(t, n, x);
      match t
      case Fat12 => Stored12(b, c, v, x);
      case Fat16 => Stored16(b, c, v, x);
      case Fat32 => Stored32(b, c, v, x);
    }
  }
}
