/** The sectors f_mkfs writes, and the volume find_volume sees on them. */
module FormatDrive {
  import opened Bytes
  import opened Geometry
  import opened FatEntries
  import opened Volume
  import opened Chains
  import opened ClusterAlloc
  import opened DataArea
  import opened AllocatorRuns
  import opened Mount
  import opened Format

  const JUMP: seq<byte> := [0xEB, 0xFE, 0x90, 0x4D, 0x53, 0x44, 0x4F, 0x53, 0x35, 0x2E, 0x30]
  const NO_NAME: seq<byte> := [0x4E, 0x4F, 0x20, 0x4E, 0x41, 0x4D, 0x45, 0x20, 0x20, 0x20, 0x20]
  const FAT32_NAME: seq<byte> := [0x46, 0x41, 0x54, 0x33, 0x32, 0x20, 0x20, 0x20]
  const FAT_NAME: seq<byte> := [0x46, 0x41, 0x54, 0x20, 0x20, 0x20, 0x20, 0x20]

  /** Byte `i` of the boot sector; `md` is the media byte, `vsn` the serial number. */
  function VbrByte(l: Layout, md: byte, vsn: dword, i: nat): byte
    requires l.au < 256
  {
    var big := l.fsType == Fat32;
    if i < 11 then JUMP[i]
    else if i < 13 then StWord(512)[i - 11]
    else if i == 13 then l.au
    else if i < 16 then StWord(l.nRsv)[i - 14]
    else if i == 16 then 1
    else if i < 19 then StWord(if big then 0 else 512)[i - 17]
    else if i < 21 then StWord(if l.nVol < 0x1_0000 then l.nVol else 0)[i - 19]
    else if i == 21 then md
    else if i < 24 then StWord(if big then 0 else l.nFat)[i - 22]
    else if i < 26 then StWord(63)[i - 24]
    else if i < 28 then StWord(255)[i - 26]
    else if i < 32 then StDword(l.bVol)[i - 28]
    else if i < 36 then StDword(if l.nVol < 0x1_0000 then 0 else l.nVol)[i - 32]
    else if i >= 510 then (if i == 510 then 0x55 else 0xAA)
    else if big then VbrByte32(l, vsn, i)
    else VbrByte16(vsn, i)
  }

  function VbrByte32(l: Layout, vsn: dword, i: nat): byte
    requires 36 <= i
  {
    if i < 40 then StDword(l.nFat)[i - 36]
    else if i == 44 then 2
    else if i == 48 then 1
    else if i == 50 then 6
    else if i == 64 then 0x80
    else if i == 66 then 0x29
    else if 67 <= i < 71 then StDword(vsn)[i - 67]
    else if 71 <= i < 82 then NO_NAME[i - 71]
    else if 82 <= i < 90 then FAT32_NAME[i - 82]
    else 0
  }

  function VbrByte16(vsn: dword, i: nat): byte {
    if i == 36 then 0x80
    else if i == 38 then 0x29
    else if 39 <= i < 43 then StDword(vsn)[i - 39]
    else if 43 <= i < 54 then NO_NAME[i - 43]
    else if 54 <= i < 62 then FAT_NAME[i - 54]
    else 0
  }

  function Vbr(l: Layout, md: byte, vsn: dword): Sector
    requires l.au < 256
  {
    seq(512, i requires 0 <= i < 512 => VbrByte(l, md, vsn, i))
  }

  /** The fields a mount reads from the boot sector. */
  lemma VbrFields(l: Layout, md: byte, vsn: dword)
    requires l.au < 256 && l.nRsv < 0x1_0000 && l.nVol < 0x1_0000_0000
    requires if l.fsType == Fat32 then l.nFat < 0x1_0000_0000 else 0 < l.nFat < 0x1_0000
    ensures var s := Vbr(l, md, vsn);
            && s[13] == l.au && s[16] == 1
            && LdWord(s, 11) == 512 && LdWord(s, 14) == l.nRsv
               && LdWord(s, 17) == (if l.fsType == Fat32 then 0 else 512)
            && FatSize(s) == l.nFat && TotalSectors(s) == l.nVol
            && (l.fsType == Fat32 ==> LdDword(s, 44) == 2 && LdWord(s, 48) == 1)
            && BootKind(s) == 0
  {
    var s := Vbr(l, md, vsn);
    VbrWords(l, md, vsn);
    VbrName(l, md, vsn);
  }

  lemma VbrWords(l: Layout, md: byte, vsn: dword)
    requires l.au < 256 && l.nRsv < 0x1_0000 && l.nVol < 0x1_0000_0000
    requires if l.fsType == Fat32 then l.nFat < 0x1_0000_0000 else 0 < l.nFat < 0x1_0000
    ensures var s := Vbr(l, md, vsn);
            && LdWord(s, 11) == 512 && LdWord(s, 14) == l.nRsv
               && LdWord(s, 17) == (if l.fsType == Fat32 then 0 else 512)
            && LdWord(s, 19) == (if l.nVol < 0x1_0000 then l.nVol else 0)
            && LdDword(s, 32) == (if l.nVol < 0x1_0000 then 0 else l.nVol)
            && LdWord(s, 22) == (if l.fsType == Fat32 then 0 else l.nFat)
            && (l.fsType == Fat32 ==> LdDword(s, 36) == l.nFat && LdDword(s, 44) == 2 && LdWord(s, 48) == 1)
  {
    hide LdWord, LdDword, StWord, StDword;
    var s := Vbr(l, md, vsn);
    assert s[11..13] == StWord(512) && s[14..16] == StWord(l.nRsv)
      && s[17..19] == StWord(if l.fsType == Fat32 then 0 else 512);
    assert s[19..21] == StWord(if l.nVol < 0x1_0000 then l.nVol else 0);
    assert s[22..24] == StWord(if l.fsType == Fat32 then 0 else l.nFat);
    assert s[32..36] == StDword(if l.nVol < 0x1_0000 then 0 else l.nVol);
    LdSlice(s, 11);
    LdSlice(s, 14);
    LdSlice(s, 17);
    LdSlice(s, 19);
    LdSlice(s, 22);
    LdSlice(s, 32);
    if l.fsType == Fat32 {
      Vbr32Words(l, md, vsn);
    }
  }

  lemma Vbr32Words(l: Layout, md: byte, vsn: dword)
    requires l.au < 256 && l.fsType == Fat32 && l.nFat < 0x1_0000_0000
    ensures var s := Vbr(l, md, vsn); LdDword(s, 36) == l.nFat && LdDword(s, 44) == 2 && LdWord(s, 48) == 1
  {
    hide StWord, StDword;
    var s := Vbr(l, md, vsn);
    assert s[36..40] == StDword(l.nFat);
    LdSlice(s, 36);
  }

  lemma VbrName(l: Layout, md: byte, vsn: dword)
    requires l.au < 256
    ensures BootKind(Vbr(l, md, vsn)) == 0
  {
    hide StWord, StDword;
    var s := Vbr(l, md, vsn);
    var o := if l.fsType == Fat32 then 82 else 54;
    assert s[o] == 0x46 && s[o + 1] == 0x41 && s[o + 2] == 0x54;
  }

  /** The boot sector of a FAT16 volume of 1048513 sectors, byte by byte. */
  lemma BootBytes16()
    ensures var s := Vbr(Layout(Fat16, 32, 63, 1048513, 1, 160, 32, 32760), 0xF8, 0x1234_5678);
            && s[..11] == [0xEB, 0xFE, 0x90, 0x4D, 0x53, 0x44, 0x4F, 0x53, 0x35, 0x2E, 0x30]
            && s[11..16] == [0x00, 0x02, 0x20, 0x01, 0x00]
            && s[16..28] == [0x01, 0x00, 0x02, 0x00, 0x00, 0xF8, 0xA0, 0x00, 0x3F, 0x00, 0xFF, 0x00]
            && s[28..43] == [0x3F, 0x00, 0x00, 0x00, 0xC1, 0xFF, 0x0F, 0x00, 0x80, 0x00, 0x29, 0x78, 0x56, 0x34, 0x12]
            && s[43..62] == [0x4E, 0x4F, 0x20, 0x4E, 0x41, 0x4D, 0x45, 0x20, 0x20, 0x20, 0x20,
                             0x46, 0x41, 0x54, 0x20, 0x20, 0x20, 0x20, 0x20]
            && (forall i | 62 <= i < 510 :: s[i] == 0) && s[510..] == [0x55, 0xAA]
  {
    BootWords16();
    hide StWord, StDword;
  }

  lemma BootWords16()
    ensures StWord(512) == [0, 2] && StWord(1) == [1, 0] && StWord(0) == [0, 0] && StWord(160) == [0xA0, 0]
            && StWord(63) == [0x3F, 0] && StWord(255) == [0xFF, 0]
    ensures StDword(63) == [0x3F, 0, 0, 0] && StDword(1048513) == [0xC1, 0xFF, 0x0F, 0]
            && StDword(0x1234_5678) == [0x78, 0x56, 0x34, 0x12]
  {
  }

  /** The boot sector of a FAT32 volume of 1048576 sectors. */
  lemma BootBytes32()
    ensures var s := Vbr(Layout(Fat32, 8, 0, 1048576, 32, 1022, 0, 130940), 0xF0, 0x1234_5678);
            && s[11..28] == [0x00, 0x02, 0x08, 0x20, 0x00, 0x01, 0x00, 0x00, 0x00, 0x00, 0xF0, 0x00, 0x00, 0x3F, 0x00,
                             0xFF, 0x00]
            && s[28..44] == [0x00, 0x00, 0x00, 0x00, 0x00, 0x00, 0x10, 0x00, 0xFE, 0x03, 0x00, 0x00, 0x00, 0x00, 0x00,
                             0x00]
  {
    BootWords32();
    hide StWord, StDword;
  }

  /** And on. */
  lemma BootTail32()
    ensures var s := Vbr(Layout(Fat32, 8, 0, 1048576, 32, 1022, 0, 130940), 0xF0, 0x1234_5678);
            && s[44..52] == [0x02, 0x00, 0x00, 0x00, 0x01, 0x00, 0x06, 0x00] && (forall i | 52 <= i < 64 :: s[i] == 0)
            && s[64..71] == [0x80, 0x00, 0x29, 0x78, 0x56, 0x34, 0x12]
            && s[71..90] == [0x4E, 0x4F, 0x20, 0x4E, 0x41, 0x4D, 0x45, 0x20, 0x20, 0x20, 0x20,
                             0x46, 0x41, 0x54, 0x33, 0x32, 0x20, 0x20, 0x20]
            && (forall i | 90 <= i < 510 :: s[i] == 0) && s[510..] == [0x55, 0xAA]
  {
    BootWords32();
    hide StWord, StDword;
  }

  lemma BootWords32()
    ensures StWord(512) == [0, 2] && StWord(32) == [32, 0] && StWord(0) == [0, 0] && StWord(63) == [0x3F, 0]
            && StWord(255) == [0xFF, 0]
    ensures StDword(0) == [0, 0, 0, 0] && StDword(1048576) == [0, 0, 0x10, 0] && StDword(1022) == [0xFE, 3, 0, 0]
            && StDword(0x1234_5678) == [0x78, 0x56, 0x34, 0x12]
  {
  }

  // ----- what a mount makes of it -----

  /** The geometry of a layout. */
  function LayoutGeo(l: Layout): Geo {
    Geo(l.fsType, l.au, 1, l.nDir * 16, l.nClst + 2, l.nFat, l.bVol, l.bVol + l.nRsv,
        if l.fsType == Fat32 then 2 else l.bVol + l.nRsv + l.nFat, l.bVol + System(l))
  }

  /** The fields of a boot sector are those of a layout. */
  predicate Describes(s: Sector, l: Layout) {
    && s[13] == l.au && s[16] == 1
    && LdWord(s, 11) == 512 && LdWord(s, 14) == l.nRsv && LdWord(s, 17) == (if l.fsType == Fat32 then 0 else 512)
    && FatSize(s) == l.nFat && TotalSectors(s) == l.nVol
    && (l.fsType == Fat32 ==> LdDword(s, 44) == 2 && LdWord(s, 48) == 1)
  }

  /** A layout is accepted, with its own sub-type, cluster count and region starts and without a number that wraps,
      exactly when one cluster fits and all its clusters can be named; without a cluster it is refused. */
  lemma LayoutAccepted(l: Layout, sectors: nat, sfd: bool, block: nat, md: byte, vsn: dword)
    requires Planned(l, sectors, sfd, block) && System(l) <= l.nVol
    ensures l.au < 256 && Describes(Vbr(l, md, vsn), l)
    ensures Acceptable(Vbr(l, md, vsn)) && Unwrapped(Vbr(l, md, vsn)) <==> Fits(l) && Countable(l)
    ensures Acceptable(Vbr(l, md, vsn)) ==> Fits(l)
    ensures Fits(l) && Countable(l) ==> GeoOf(Vbr(l, md, vsn), l.bVol) == LayoutGeo(l)
  {
    VbrFields(l, md, vsn);
    hide Acceptable, Unwrapped, GeoOf, Vbr;
    DescribedAccepted(Vbr(l, md, vsn), l, sectors, sfd, block);
  }

  lemma DescribedAccepted(s: Sector, l: Layout, sectors: nat, sfd: bool, block: nat)
    requires Planned(l, sectors, sfd, block) && System(l) <= l.nVol && Describes(s, l)
    ensures s[13] > 0 && TotalSectors(s) >= SystemSectors(s)
    ensures Acceptable(s) && Unwrapped(s) <==> Fits(l) && Countable(l)
    ensures Acceptable(s) ==> Fits(l)
    ensures Fits(l) && Countable(l) ==> GeoOf(s, l.bVol) == LayoutGeo(l)
  {
    hide LdWord, LdDword, PowerOfTwo, FatSize, TotalSectors, NeededBytes, PowerOfTwoByte;
    BytePower(l.au);
    DescribedSystem(s, l);
    hide FatArea, SystemSectors;
    if Fits(l) {
      assert ClusterCount(s) == l.nClst;
    }
    if Fits(l) && Countable(l) {
      ClustersCounted(l);
      NeededRange(l.fsType, l.nClst + 2);
      hide SubType, ClusterCount;
      assert Unwrapped(s);
    }
  }

  lemma DescribedSystem(s: Sector, l: Layout)
    requires Describes(s, l) && System(l) < 0x1_0000_0000 && (l.fsType != Fat32 ==> l.nDir == 32)
             && (l.fsType == Fat32 ==> l.nDir == 0)
    ensures FatArea(s) == l.nFat && SystemSectors(s) == System(l)
  {
    hide LdWord, LdDword, FatSize, TotalSectors;
  }

  lemma ClustersCounted(l: Layout)
    requires l.au > 0 && Countable(l) && Fits(l) && l.nClst == (l.nVol - System(l)) / l.au
             && SubType(l.nClst) == l.fsType
    ensures 1 <= l.nClst && l.nClst + 2 <= EndMark(l.fsType)
  {
    DivLess(l.nVol - System(l), l.au, 1);
  }

  // ----- the FAT of a new volume -----

  /** Byte `i` of a new FAT: the reserved entries, and on FAT32 the root directory in cluster 2. */
  function HeadByte(t: FatType, md: byte, i: nat): byte {
    if i == 0 then md
    else if i < 3 then 0xFF
    else if t == Fat12 then 0
    else if i == 3 then 0xFF
    else if t == Fat32 && i < 11 then 0xFF
    else if t == Fat32 && i == 11 then 0x0F
    else 0
  }

  function FatHead(t: FatType, md: byte): Sector {
    seq(512, i requires 0 <= i < 512 => HeadByte(t, md, i))
  }

  /** The table of a new volume. */
  ghost predicate NewTable(t: FatType, fat: seq<nat>) {
    && |fat| >= 3 && fat[0] != 0 && fat[1] != 0
    && (forall c: nat | 2 <= c < |fat| :: fat[c] == if t == Fat32 && c == 2 then EndMark(Fat32) else 0)
  }

  lemma FreshTable(t: FatType, md: byte, n: nat, b: seq<byte>)
    requires n >= 3 && FatBytesNeeded(t, n) <= |b|
    requires forall i | 0 <= i < |b| :: b[i] == HeadByte(t, md, i)
    ensures NewTable(t, Table(t, n, b))
  {
    hide Table;
    forall c: nat | c < n
      ensures Table(t, n, b)[c] == if c < 2 then Table(t, n, b)[c] else if t == Fat32 && c == 2 then EndMark(Fat32)
              else 0
      ensures c < 2 ==> Table(t, n, b)[c] != 0
    {
      EntryInside(t, n, c);
      EntryInside(t, c + 1, c);
      TableEntry(t, n, b, c);
      FreshEntry(t, md, n, b, c);
    }
  }

  lemma TableEntry(t: FatType, n: nat, b: seq<byte>, c: nat)
    requires FatBytesNeeded(t, n) <= |b| && c < n
    ensures EntryOffset(t, c) + EntrySize(t) <= |b| && Table(t, n, b)[c] == Entry(t, b, c)
  {
    EntryInside(t, n, c);
  }

  lemma FreshEntry(t: FatType, md: byte, n: nat, b: seq<byte>, c: nat)
    requires EntryOffset(t, c) + EntrySize(t) <= |b|
    requires forall i | 0 <= i < |b| :: b[i] == HeadByte(t, md, i)
    ensures if c < 2 then Entry(t, b, c) != 0 else Entry(t, b, c) == if t == Fat32 && c == 2 then EndMark(Fat32) else 0
  {
  }

  /** The new table is the forest of the root directory alone, and its zero entries are the clusters but for it. */
  lemma NewForest(t: FatType, fat: seq<nat>)
    requires NewTable(t, fat) && |fat| <= EndMark(t)
    ensures var s: set<seq<nat>> := if t == Fat32 then {[2]} else {};
            Forest(fat, s) && FreeCount(fat) == |fat| - 2 - if t == Fat32 then 1 else 0
    ensures forall c: nat | InTable(fat, c) :: fat[c] != 1
  {
    var s: set<seq<nat>> := if t == Fat32 then {[2]} else {};
    if t == Fat32 {
      assert IsChain(fat, [2]);
      assert 2 in [2] && [2] in s;
      OnChainsPick(s, [2]);
      assert s - {[2]} == {};
    }
    assert Forest(fat, s) by {
      forall c: nat | InTable(fat, c) && fat[c] != 0 ensures OnSome(s, c) {
        assert t == Fat32 && c == 2;
      }
    }
    Conservation(fat, s);
  }

  // ----- the drive -----

  /** Sectors the root directory takes. */
  function RootSectors(l: Layout): nat {
    if l.fsType == Fat32 then l.au else l.nDir
  }

  /** The drive has the sectors f_mkfs writes; one FAT sector is always written. */
  predicate Written(l: Layout, sectors: nat) {
    l.bVol + l.nRsv + (if l.nFat > 0 then l.nFat else 1) + RootSectors(l) <= sectors
  }

  /** What f_mkfs leaves on the drive. */
  ghost predicate Formatted(d: seq<Sector>, l: Layout, sfd: bool, vsn: dword)
    requires l.au < 256
  {
    var md: byte := if sfd then 0xF0 else 0xF8;
    && Written(l, |d|) && l.bVol + 1 < |d|
    && (!sfd ==> BootKind(d[0]) == 1 && PartitionStart(d[0], 0) == 63)
    && d[l.bVol] == Vbr(l, md, vsn)
    && (l.nFat > 0 ==> d[l.bVol + l.nRsv] == FatHead(l.fsType, md))
    && (forall s: nat | l.bVol + l.nRsv < s < l.bVol + l.nRsv + l.nFat + RootSectors(l) :: d[s] == ZeroSector())
    && (l.fsType == Fat32 && l.nClst > 0 ==> d[l.bVol + 1] == FsInfo((l.nClst - 1) % 0x1_0000_0000, 2))
  }

  /** Byte `i` of the partition table sector: one partition, behind the first track. */
  function MbrByte(sys: byte, bVol: nat, nVol: nat, i: nat): byte {
    var n := (bVol + nVol) / 63 / 255;
    if i == 447 then 1
    else if i == 448 then 1
    else if i == 450 then sys
    else if i == 451 then 254
    else if i == 452 then n / 4 % 256 / 64 * 64 + 63
    else if i == 453 then n % 256
    else if 454 <= i < 458 then StDword(63)[i - 454]
    else if 458 <= i < 462 then StDword(nVol)[i - 458]
    else if i == 510 then 0x55
    else if i == 511 then 0xAA
    else 0
  }

  function Mbr(sys: byte, bVol: nat, nVol: nat): Sector {
    seq(512, i requires 0 <= i < 512 => MbrByte(sys, bVol, nVol, i))
  }

  /** System ID of the partition. */
  function SystemId(t: FatType, nVol: nat): byte {
    if t == Fat32 then 0x0C
    else if t == Fat12 && nVol < 0x1_0000 then 0x01
    else if nVol < 0x1_0000 then 0x04 else 0x06
  }

  lemma MbrFields(sys: byte, bVol: nat, nVol: nat)
    requires sys != 0
    ensures BootKind(Mbr(sys, bVol, nVol)) == 1 && PartitionStart(Mbr(sys, bVol, nVol), 0) == 63
  {
    var s := Mbr(sys, bVol, nVol);
    MbrBytes(sys, bVol, nVol);
    LdSlice(s, 454);
    hide Mbr, StDword;
  }

  lemma MbrBytes(sys: byte, bVol: nat, nVol: nat)
    ensures var s := Mbr(sys, bVol, nVol);
            s[454..458] == StDword(63) && s[450] == sys && s[510] == 0x55 && s[511] == 0xAA
  {
    hide StDword;
    var s := Mbr(sys, bVol, nVol);
    assert s[454..458] == StDword(63);
  }

  /** Sector `s` of a formatted drive on which it was `was`: the partition table, the boot sector and FSINFO with their
      copies on FAT32, the FAT and the root directory, and everything else untouched. */
  function MadeSector(l: Layout, sfd: bool, vsn: dword, s: nat, was: Sector): Sector
    requires l.au < 256
  {
    var md: byte := if sfd then 0xF0 else 0xF8;
    var big := l.fsType == Fat32;
    if !sfd && s == 0 then Mbr(SystemId(l.fsType, l.nVol), l.bVol, l.nVol)
    else if s == l.bVol || (big && s == l.bVol + 6) then Vbr(l, md, vsn)
    else if big && (s == l.bVol + 1 || s == l.bVol + 7) then FsInfo((l.nClst - 1) % 0x1_0000_0000, 2)
    else if s == l.bVol + l.nRsv then FatHead(l.fsType, md)
    else if l.bVol + l.nRsv < s < l.bVol + l.nRsv + (if l.nFat > 0 then l.nFat else 1) + RootSectors(l)
    then ZeroSector()
    else was
  }

  /** The partition table, byte by byte, for a FAT16 volume of 1048513 sectors. */
  lemma TableBytes()
    ensures var s := Mbr(SystemId(Fat16, 1048513), 63, 1048513);
            && s[446..462] == [0, 1, 1, 0, 6, 254, 63, 65, 0x3F, 0, 0, 0, 0xC1, 0xFF, 0x0F, 0]
            && (forall i | 0 <= i < 446 || 462 <= i < 510 :: s[i] == 0) && s[510..] == [0x55, 0xAA]
    ensures SystemId(Fat32, 1048513) == 0x0C && SystemId(Fat12, 0xFFFF) == 1 && SystemId(Fat16, 0xFFFF) == 4
            && SystemId(Fat12, 0x1_0000) == 6
  {
    assert StDword(1048513) == [0xC1, 0xFF, 0x0F, 0];
    assert StDword(63) == [0x3F, 0, 0, 0];
    hide StDword;
  }

  /** The first FAT sector, byte by byte. */
  lemma FatBytesMade(md: byte)
    ensures FatHead(Fat12, md)[..12] == [md, 0xFF, 0xFF, 0, 0, 0, 0, 0, 0, 0, 0, 0]
    ensures FatHead(Fat16, md)[..12] == [md, 0xFF, 0xFF, 0xFF, 0, 0, 0, 0, 0, 0, 0, 0]
    ensures FatHead(Fat32, md)[..12] == [md, 0xFF, 0xFF, 0xFF, 0xFF, 0xFF, 0xFF, 0xFF, 0xFF, 0xFF, 0xFF, 0x0F]
    ensures forall t: FatType, i | 12 <= i < 512 :: FatHead(t, md)[i] == 0
  {
  }

  /** Every sector of drive `d` is what f_mkfs makes of it. */
  ghost predicate Made(d: seq<Sector>, before: seq<Sector>, l: Layout, sfd: bool, vsn: dword)
    requires l.au < 256
  {
    |d| == |before| && forall s: nat | s < |d| :: d[s] == MadeSector(l, sfd, vsn, s, before[s])
  }

  /** Boot sector and FSINFO of a FAT32 volume are where the boot sector says, and so are their copies. */
  lemma BackupsTold(d: seq<Sector>, before: seq<Sector>, l: Layout, sfd: bool, vsn: dword)
    requires l.au < 256 && Made(d, before, l, sfd, vsn) && l.fsType == Fat32 && l.nRsv >= 32 && l.bVol + 8 <= |d|
    requires l.bVol == if sfd then 0 else 63
    ensures var info, copy := LdWord(d[l.bVol], 48), LdWord(d[l.bVol], 50);
            && copy == 6 && info == 1 && d[l.bVol + copy] == d[l.bVol]
            && d[l.bVol + copy + info] == d[l.bVol + info] == FsInfo((l.nClst - 1) % 0x1_0000_0000, 2)
  {
    var v := d[l.bVol];
    assert v == Vbr(l, if sfd then 0xF0 else 0xF8, vsn);
    assert v[48] == 1 && v[49] == 0 && v[50] == 6 && v[51] == 0;
    hide Vbr, Mbr, FsInfo;
  }

  lemma MadeFormatted(d: seq<Sector>, before: seq<Sector>, l: Layout, sfd: bool, vsn: dword)
    requires l.au < 256 && Made(d, before, l, sfd, vsn) && Written(l, |d|) && l.bVol + 1 < |d|
    requires l.bVol == (if sfd then 0 else 63) && (if l.fsType == Fat32 then l.nRsv >= 32 else l.nRsv == 1)
    ensures Formatted(d, l, sfd, vsn)
  {
    MbrFields(SystemId(l.fsType, l.nVol), l.bVol, l.nVol);
    hide Mbr, Vbr, FatHead, FsInfo, ZeroSector, BootKind, PartitionStart;
  }

  /** A sector built in the window and written to the drive; a drive refuses a sector it does not have. */
  method WriteRecord(fs: Fatfs, v: Sector, s: nat) returns (ok: bool)
    requires fs.win.Length == 512
    modifies fs.win, fs`disk
    ensures ok == (s < |fs.disk|) && |fs.disk| == |old(fs.disk)|
    ensures fs.disk == if ok then old(fs.disk)[s := v] else old(fs.disk)
  {
    forall i | 0 <= i < 512 {
      fs.win[i] := v[i];
    }
    ok := s < |fs.disk|;
    if ok {
      DiskWriteWin(fs, s);
      assert fs.win[..] == v;
    }
  }

  /** `n` sectors of zeros from `s` on. */
  method WriteZeros(fs: Fatfs, s: nat, n: nat) returns (ok: bool)
    requires fs.win.Length == 512
    modifies fs.win, fs`disk
    ensures |fs.disk| == |old(fs.disk)| && (ok <==> n == 0 || s + n <= |fs.disk|)
    ensures ok ==> forall x: nat | x < |fs.disk| :: fs.disk[x] == if s <= x < s + n then ZeroSector()
            else old(fs.disk)[x]
  {
    hide ZeroSector;
    ok := true;
    var i := 0;
    while i < n && ok
      invariant 0 <= i <= n && |fs.disk| == |old(fs.disk)| && (ok <==> i == 0 || s + i <= |fs.disk|)
      invariant ok ==> forall x: nat | x < |fs.disk| :: fs.disk[x] == if s <= x < s + i then ZeroSector()
                else old(fs.disk)[x]
    {
      ok := WriteRecord(fs, ZeroSector(), s + i);
      i := i + 1;
    }
  }

  /** f_mkfs: plans the layout and writes it. */
  method MkFs(fs: Fatfs, sfd: bool, au: nat, block: nat, vsn: dword) returns (res: FResult)
    requires fs.win.Length == 512 && |fs.disk| < 0x1_0000_0000 && (0 < block <= 32768 ==> PowerOfTwo(block))
    modifies fs.win, fs`disk
    ensures |fs.disk| == |old(fs.disk)|
    ensures res == match PlanFor(|fs.disk|, sfd, au, block)
                   case Refused(r) => r
                   case Laid(l) => if Written(l, |fs.disk|) then FrOk else FrDiskErr
    ensures res == FrOk ==> var l := PlanFor(|fs.disk|, sfd, au, block).l;
            l.au < 256 && Made(fs.disk, old(fs.disk), l, sfd, vsn) && Formatted(fs.disk, l, sfd, vsn)
  {
    hide Made, Planned, Formatted, PowerOfTwo, PowerOfTwoByte, MbrByte, VbrByte, FsInfo, BootKind, PartitionStart;
    hide PlanFor, Written;
    RefusedNotOk(|fs.disk|, sfd, au, block);
    var plan := MakePlan(|fs.disk|, sfd, au, block);
    if plan.Refused? {
      return plan.res;
    }
    UnitByte(plan.l, |fs.disk|, sfd, block);
    res := WriteVolume(fs, plan.l, sfd, vsn);
  }

  lemma RefusedNotOk(sectors: nat, sfd: bool, au: nat, block: nat)
    requires sectors < 0x1_0000_0000
    ensures var plan := PlanFor(sectors, sfd, au, block); plan.Refused? ==> plan.res != FrOk
  {
  }

  lemma UnitByte(l: Layout, sectors: nat, sfd: bool, block: nat)
    requires Planned(l, sectors, sfd, block)
    ensures 0 < l.au < 256 && l.bVol == (if sfd then 0 else 63) && l.bVol + l.nVol == sectors
    ensures if l.fsType == Fat32 then l.nRsv >= 32 && l.nClst > 0 else l.nRsv == 1 && l.nDir == 32
  {
  }

  /** The writes of f_mkfs. */
  method WriteVolume(fs: Fatfs, l: Layout, sfd: bool, vsn: dword) returns (res: FResult)
    requires fs.win.Length == 512 && 0 < l.au < 256 && l.bVol == (if sfd then 0 else 63)
    requires if l.fsType == Fat32 then l.nRsv >= 32 && l.nClst > 0 else l.nRsv == 1 && l.nDir == 32
    modifies fs.win, fs`disk
    ensures |fs.disk| == |old(fs.disk)| && res == if Written(l, |fs.disk|) then FrOk else FrDiskErr
    ensures res == FrOk ==> Made(fs.disk, old(fs.disk), l, sfd, vsn) && Formatted(fs.disk, l, sfd, vsn)
  {
    hide MbrByte, VbrByte, HeadByte, FsInfo, BootKind, PartitionStart, ZeroSector, Vbr, Mbr, FatHead, SystemId;
    hide Formatted, MbrByte;
    var ok;
    var md: byte := if sfd then 0xF0 else 0xF8;
    if !sfd {
      ok := WriteRecord(fs, Mbr(SystemId(l.fsType, l.nVol), l.bVol, l.nVol), 0);
      if !ok {
        return FrDiskErr;
      }
    }
    ok := WriteRecord(fs, Vbr(l, md, vsn), l.bVol);
    if !ok {
      return FrDiskErr;
    }
    if l.fsType == Fat32 {
      ok := WriteRecord(fs, Vbr(l, md, vsn), l.bVol + 6);
    }
    ok := WriteFatArea(fs, l, md);
    if !ok {
      return FrDiskErr;
    }
    if l.fsType == Fat32 {
      ok := WriteRecord(fs, FsInfo((l.nClst - 1) % 0x1_0000_0000, 2), l.bVol + 1);
      ok := WriteRecord(fs, FsInfo((l.nClst - 1) % 0x1_0000_0000, 2), l.bVol + 7);
    }
    MadeFormatted(fs.disk, old(fs.disk), l, sfd, vsn);
    return FrOk;
  }

  /** The FAT and the root directory of a new volume. */
  method WriteFatArea(fs: Fatfs, l: Layout, md: byte) returns (ok: bool)
    requires fs.win.Length == 512 && RootSectors(l) > 0
    modifies fs.win, fs`disk
    ensures |fs.disk| == |old(fs.disk)|
    ensures ok <==> Written(l, |fs.disk|)
    ensures ok ==> fs.disk[l.bVol + l.nRsv] == FatHead(l.fsType, md)
    ensures ok ==> forall s: nat | l.bVol + l.nRsv < s < |fs.disk| ::
              fs.disk[s] == if s < l.bVol + l.nRsv + (if l.nFat > 0 then l.nFat else 1) + RootSectors(l)
              then ZeroSector() else old(fs.disk)[s]
    ensures ok ==> forall s: nat | s < l.bVol + l.nRsv :: fs.disk[s] == old(fs.disk)[s]
  {
    hide ZeroSector, FatHead;
    ok := WriteRecord(fs, FatHead(l.fsType, md), l.bVol + l.nRsv);
    if !ok {
      return;
    }
    var rest := if l.nFat > 0 then l.nFat - 1 else 0;
    ok := WriteZeros(fs, l.bVol + l.nRsv + 1, rest);
    if !ok {
      return;
    }
    ok := WriteZeros(fs, l.bVol + l.nRsv + 1 + rest, RootSectors(l));
  }

  // ----- format, then mount -----

  /** find_volume comes to the boot sector f_mkfs wrote. */
  lemma FoundAgain(d: seq<Sector>, l: Layout, sfd: bool, vsn: dword)
    requires l.au < 256 && Formatted(d, l, sfd, vsn) && l.bVol == if sfd then 0 else 63
    ensures BootAt(d) == l.bVol < |d| && d[l.bVol] == Vbr(l, if sfd then 0xF0 else 0xF8, vsn)
  {
    hide Vbr, BootKind, PartitionStart, ZeroSector, FatHead, FsInfo;
    VbrName(l, if sfd then 0xF0 else 0xF8, vsn);
  }

  /** The FAT of the formatted volume is a new table. */
  lemma FreshFat(d: seq<Sector>, l: Layout, sfd: bool, vsn: dword)
    requires 0 < l.au < 256 && Formatted(d, l, sfd, vsn) && FatGeo(LayoutGeo(l), |d|)
    ensures NewTable(l.fsType, TableOf(LayoutGeo(l), d))
  {
    hide Vbr, BootKind, PartitionStart, FsInfo, Table;
    var g := LayoutGeo(l);
    var md: byte := if sfd then 0xF0 else 0xF8;
    forall i | 0 <= i < g.fsize * 512 ensures FatBytes(g, d)[i] == HeadByte(l.fsType, md, i) {
      if i < 512 {
        assert d[g.fatbase + i / 512] == FatHead(l.fsType, md);
      } else {
        assert d[g.fatbase + i / 512] == ZeroSector();
      }
    }
    FreshTable(l.fsType, md, g.nFatent, FatBytes(g, d));
  }

  /** So is the root directory. */
  lemma FreshRoot(d: seq<Sector>, l: Layout, sfd: bool, vsn: dword)
    requires 0 < l.au < 256 && Formatted(d, l, sfd, vsn) && l.nFat > 0 && (l.fsType == Fat32 ==> l.nDir == 0)
    ensures RootBlank(LayoutGeo(l), d)
  {
    hide Vbr, BootKind, PartitionStart, FsInfo, FatHead, ZeroSector;
  }

  /** The counts of the FSINFO sector f_mkfs wrote. */
  lemma FreshCounts(d: seq<Sector>, l: Layout, sfd: bool, vsn: dword)
    requires 0 < l.au < 256 && Formatted(d, l, sfd, vsn) && l.fsType == Fat32 && 1 <= l.nClst < 0x1_0000_0000
    requires Describes(d[l.bVol], l)
    ensures MountedCounts(LayoutGeo(l), d[l.bVol], d) == (l.nClst - 1, 2) && HasFsInfo(LayoutGeo(l), d[l.bVol], d)
  {
    hide Vbr, BootKind, PartitionStart, FsInfo, LdWord, LdDword, FatSize, TotalSectors, FatHead, ZeroSector;
    FsInfoFields(l.nClst - 1, 2);
    assert d[l.bVol + 1] == FsInfo(l.nClst - 1, 2);
  }

  /** A volume f_mkfs just made, mounted: the chains on it, an empty root directory, and the count of free clusters. */
  ghost predicate NewVolume(fs: Fatfs, l: Layout)
    reads fs, fs.win
  {
    && fs.Valid() && DataGeo(fs.geo, |fs.disk|) && fs.geo == LayoutGeo(l)
    && Forest(fs.fat, if fs.geo.fsType == Fat32 then {[2]} else {})
    && fs.fat[0] != 0 && fs.fat[1] != 0
    && RootBlank(fs.geo, fs.logical)
    && FreeExact(fs) && (fs.geo.fsType == Fat32 ==> fs.freeClust == FreeCount(fs.fat))
  }

  /** Every sector of the root directory is zero, and so every entry. */
  ghost predicate RootBlank(g: Geo, d: seq<Sector>) {
    var first, n := if g.fsType == Fat32 then ClusterSector(g, 2) else g.dirbase, if g.fsType == Fat32 then g.csize
      else g.nRootdir / 16;
    forall s: nat | first <= s < first + n :: s < |d| && d[s] == ZeroSector()
  }

  /** The mounted geometry is one that every later step can rely on. */
  ghost predicate SoundGeo(fs: Fatfs)
    reads fs
  {
    FatGeo(fs.geo, |fs.disk|) && DataGeo(fs.geo, |fs.disk|)
  }

  /** f_mkfs, then find_volume. Whether a drive becomes a sound volume is told by its size and the arguments alone: the
      plan must leave a cluster behind the aligned metadata, and no more than 28-bit numbers can name. The volume has
      the sub-type, cluster count and regions it was planned with; its FAT holds the root directory and nothing else,
      the root directory is empty, and the FSINFO count is the number of free clusters. */
  method FormatAndMount(fs: Fatfs, sfd: bool, au: nat, block: nat, vsn: dword) returns (made: FResult, res: FResult)
    requires fs.win.Length == 512 && |fs.disk| < 0x1_0000_0000 && (0 < block <= 32768 ==> PowerOfTwo(block))
    modifies fs, fs.win
    ensures |fs.disk| == |old(fs.disk)|
    ensures var plan := PlanFor(|fs.disk|, sfd, au, block);
            && made == (match plan case Refused(r) => r case Laid(l) => if Written(l, |fs.disk|) then FrOk
               else FrDiskErr)
            && (made == FrOk && res == FrOk && SoundGeo(fs) <==> HasVolume(|fs.disk|, sfd, au, block))
            && (HasVolume(|fs.disk|, sfd, au, block) ==> NewVolume(fs, plan.l))
            && (made == FrOk && res == FrOk ==> HasRoom(|fs.disk|, sfd, au, block))
            && (made == FrOk && res != FrOk ==> res == FrNoFilesystem)
  {
    hide Planned, Formatted, Fatfs.Valid, PowerOfTwo, BootAt, SearchFails, Acceptable, GeoOf, Unwrapped, CopiesAgree;
    hide Vbr, LayoutGeo;
    hide Countable, Fits, NewVolume, MountedCounts, HasFsInfo, TotalSectors, PlanFor, Written;
    ghost var plan := PlanFor(|fs.disk|, sfd, au, block);
    PlanIsPlanned(|fs.disk|, sfd, au, block);
    RefusedNotOk(|fs.disk|, sfd, au, block);
    if plan.Laid? {
      UnitByte(plan.l, |fs.disk|, sfd, block);
      FitsWritten(plan.l, |fs.disk|, sfd, block);
    }
    made := MkFs(fs, sfd, au, block, vsn);
    res := FrDiskErr;
    if made != FrOk {
      return;
    }
    ghost var l, d := plan.l, fs.disk;
    res := FindVolume(fs);
    FoundAgain(d, l, sfd, vsn);
    RoomTaken(l, d, sfd, vsn, block);
    LayoutAccepted(l, |d|, sfd, block, if sfd then 0xF0 else 0xF8, vsn);
    if res == FrOk {
      AcceptedGeometry(d[l.bVol], l.bVol, |d|);
    }
    if Fits(l) && Countable(l) {
      OneCopy(l, d);
      NewVolumeMade(fs, l, sfd, vsn, block);
    }
  }

  /** A layout with room for a cluster has all its metadata on the drive. */
  lemma FitsWritten(l: Layout, sectors: nat, sfd: bool, block: nat)
    requires Planned(l, sectors, sfd, block)
    ensures l.au > 0 && (Fits(l) && Countable(l) ==> Written(l, sectors))
  {
  }

  lemma OneCopy(l: Layout, d: seq<Sector>)
    requires FatGeo(LayoutGeo(l), |d|)
    ensures CopiesAgree(LayoutGeo(l), d)
  {
  }

  lemma RoomTaken(l: Layout, d: seq<Sector>, sfd: bool, vsn: dword, block: nat)
    requires l.au < 256 && Planned(l, |d|, sfd, block) && Formatted(d, l, sfd, vsn)
    ensures System(l) <= l.nVol
  {
    hide Vbr, BootKind, PartitionStart, ZeroSector, FatHead, FsInfo, PowerOfTwoByte, SubType;
  }

  lemma NewVolumeMade(fs: Fatfs, l: Layout, sfd: bool, vsn: dword, block: nat)
    requires 0 < l.au < 256 && Planned(l, |fs.disk|, sfd, block) && Formatted(fs.disk, l, sfd, vsn) && Countable(l)
             && Fits(l)
    requires fs.geo == LayoutGeo(l) && FatGeo(fs.geo, |fs.disk|)
    requires Describes(fs.disk[l.bVol], l)
    requires fs.Valid() && DataGeo(fs.geo, |fs.disk|) && fs.logical == fs.disk
    requires (fs.freeClust, fs.lastClust) == MountedCounts(fs.geo, fs.disk[l.bVol], fs.disk)
    ensures NewVolume(fs, l)
  {
    PlannedCount(l, |fs.disk|, sfd, block);
    MadeParts(l);
    CountsLoaded(fs, l);
    hide *;
    FreshFat(fs.disk, l, sfd, vsn);
    FreshRoot(fs.disk, l, sfd, vsn);
    FatInMemory(fs);
    NewForest(l.fsType, fs.fat);
    if l.fsType == Fat32 {
      FreshCounts(fs.disk, l, sfd, vsn);
    }
    NewVolumeParts(fs, l);
  }

  lemma MadeParts(l: Layout)
    ensures LayoutGeo(l).fsType == l.fsType && LayoutGeo(l).nFatent == l.nClst + 2
  {
  }

  lemma CountsLoaded(fs: Fatfs, l: Layout)
    requires fs.geo == LayoutGeo(l) && l.bVol < |fs.disk|
    requires (fs.freeClust, fs.lastClust) == MountedCounts(fs.geo, fs.disk[l.bVol], fs.disk)
    ensures l.fsType != Fat32 ==> fs.freeClust == UNKNOWN
  {
  }

  lemma NewVolumeParts(fs: Fatfs, l: Layout)
    requires fs.Valid() && DataGeo(fs.geo, |fs.disk|) && fs.geo == LayoutGeo(l) && NewTable(l.fsType, fs.fat)
    requires Forest(fs.fat, if l.fsType == Fat32 then {[2]} else {}) && RootBlank(fs.geo, fs.logical)
    requires fs.freeClust == if l.fsType == Fat32 then FreeCount(fs.fat) else UNKNOWN
    ensures NewVolume(fs, l)
  {
    hide Fatfs.Valid, DataGeo, Forest, RootBlank, FreeCount;
  }

  lemma FatInMemory(fs: Fatfs)
    requires fs.Valid() && fs.logical == fs.disk
    ensures fs.fat == TableOf(fs.geo, fs.disk) && fs.geo.nFatent <= EndMark(fs.geo.fsType) && |fs.fat| == fs.geo.nFatent
  {
  }

  lemma PlannedCount(l: Layout, sectors: nat, sfd: bool, block: nat)
    requires l.au > 0 && Planned(l, sectors, sfd, block) && Countable(l) && Fits(l)
    ensures 1 <= l.nClst < 0x1_0000_0000 - 2
  {
    hide PowerOfTwoByte;
    ClustersCounted(l);
  }

  /** On 128 sectors with erase blocks of 128 sectors the metadata fills the volume: f_mkfs plans it all the same, finds
      room for what it writes, and find_volume will not have it. */
  lemma NothingLeft(md: byte, vsn: dword)
    ensures var l := Layout(Fat12, 1, 0, 128, 1, 95, 32, 0);
            && PlanFor(128, true, 0, 128) == Laid(l) && Written(l, 128)
            && !HasRoom(128, true, 0, 128) && !Acceptable(Vbr(l, md, vsn))
  {
    var l := Layout(Fat12, 1, 0, 128, 1, 95, 32, 0);
    SmallPlan(l);
    PlanIsPlanned(128, true, 0, 128);
    hide Acceptable, Vbr, Planned, PlanFor;
    LayoutAccepted(l, 128, true, 128, md, vsn);
  }

  lemma SmallPlan(l: Layout)
    requires l == Layout(Fat12, 1, 0, 128, 1, 95, 32, 0)
    ensures PlanFor(128, true, 0, 128) == Laid(l)
  {
    SmallUnit();
    assert Units(128, 1) == 128 && Units(0, 1) == 0 && FatSectors(Fat12, 128) == 1;
    assert Alignment(34, 128) == 94;
    hide Alignment, FatSectors, Units, UnitFor;
    assert PlanVolume(128, 0, 1, 128) == Laid(l);
  }

  lemma SmallUnit()
    ensures UnitFor(128, 0) == 1
  {
    assert forall i | 0 <= i < 10 :: VST[i] > 0;
    assert Bound(0, 0) == 10;
  }

  /** A drive of 512 megabytes with erase blocks of 64 sectors: FAT16 behind the first track, clusters of 32 sectors, a
      FAT lengthened by 32 sectors to the next block. */
  lemma CardPlan()
    ensures PlanFor(1048576, false, 0, 64) == Laid(Layout(Fat16, 32, 63, 1048513, 1, 160, 32, 32760))
  {
    BoundFigures(524);
    UnitRange(1048513, 0);
    assert UnitFor(1048513, 0) == 32;
    assert Units(1048513, 32) == 32766 && Units(1048320, 32) == 32760 && FatSectors(Fat16, 32766) == 128;
    assert Alignment(224, 64) == 32;
    hide Alignment, FatSectors, Units, UnitFor, Bound;
    assert PlanVolume(1048513, 63, 32, 64) == Laid(Layout(Fat16, 32, 63, 1048513, 1, 160, 32, 32760));
  }

  /** A drive of 256 gigabytes with clusters of one sector: f_mkfs makes more than 500 million of them, and find_volume
      accepts them, though 28 bits do not hold their numbers. */
  lemma TooManyClusters(md: byte, vsn: dword)
    ensures var l := Layout(Fat32, 1, 0, 0x2000_0000, 32, 4194305, 0, 532676575);
            && PlanFor(0x2000_0000, true, 512, 1) == Laid(l) && Written(l, 0x2000_0000)
            && HasRoom(0x2000_0000, true, 512, 1) && !HasVolume(0x2000_0000, true, 512, 1)
            && Acceptable(Vbr(l, md, vsn)) && !Unwrapped(Vbr(l, md, vsn))
  {
    var l := Layout(Fat32, 1, 0, 0x2000_0000, 32, 4194305, 0, 532676575);
    LargePlan(l);
    PlanIsPlanned(0x2000_0000, true, 512, 1);
    VbrFields(l, md, vsn);
    hide Vbr, Planned, PlanFor, Acceptable, Unwrapped, Describes;
    LayoutAccepted(l, 0x2000_0000, true, 1, md, vsn);
    LargeAccepted(Vbr(l, md, vsn), l);
  }

  lemma LargeAccepted(s: Sector, l: Layout)
    requires l == Layout(Fat32, 1, 0, 0x2000_0000, 32, 4194305, 0, 532676575) && Describes(s, l)
    ensures Acceptable(s)
  {
    DescribedSystem(s, l);
    hide LdWord, LdDword, FatSize, TotalSectors, SystemSectors, FatArea;
    assert ClusterCount(s) == 532676575 && PowerOfTwo(1);
    assert NeededBytes(Fat32, 532676577) == 2130706308;
  }

  lemma LargePlan(l: Layout)
    requires l == Layout(Fat32, 1, 0, 0x2000_0000, 32, 4194305, 0, 532676575)
    ensures PlanFor(0x2000_0000, true, 512, 1) == Laid(l)
  {
    PowersOfTwo();
    UnitRange(0x2000_0000, 512);
    assert Units(0x2000_0000, 1) == 0x2000_0000 && Units(532676575, 1) == 532676575;
    assert FatSectors(Fat32, 0x2000_0000) == 4194305;
    NoAlignment(4194337);
    hide Alignment, FatSectors, Units;
    assert PlanVolume(0x2000_0000, 0, 1, 1) == Laid(l);
  }

  lemma NoAlignment(bData: nat)
    ensures Alignment(bData, 1) == 0
  {
  }
}
