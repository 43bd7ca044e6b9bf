/** find_volume: which boot sectors are accepted, and what an accepted one promises to the rest. */
module Mount {
  import opened Bytes
  import opened Geometry
  import opened FatEntries
  import opened Volume
  import opened ClusterAlloc
  import opened DataArea

  /** A DWORD holds numbers modulo 2^32. */
  function Dword(x: nat): (w: nat)
    ensures w < 0x1_0000_0000 && (x < 0x1_0000_0000 ==> w == x)
  {
    x % 0x1_0000_0000
  }

  /** The test `x & (x - 1)` on a non-zero number. */
  predicate PowerOfTwo(n: nat) {
    n == 1 || (n > 1 && n % 2 == 0 && PowerOfTwo(n / 2))
  }

  lemma {:induction false} BytePower(n: nat)
    requires n < 256
    ensures PowerOfTwo(n) <==> PowerOfTwoByte(n)
    decreases n
  {
    if n > 1 && n % 2 == 0 {
      BytePower(n / 2);
    }
  }

  // ----- fields of a boot sector -----

  /** Sectors per FAT copy. */
  function FatSize(s: Sector): nat {
    if LdWord(s, 22) != 0 then LdWord(s, 22) else LdDword(s, 36)
  }

  /** Sectors on the volume. */
  function TotalSectors(s: Sector): nat {
    if LdWord(s, 19) != 0 then LdWord(s, 19) else LdDword(s, 32)
  }

  /** Sectors of all FAT copies. */
  function FatArea(s: Sector): nat {
    Dword(FatSize(s) * s[16])
  }

  /** Sectors in front of the data area. */
  function SystemSectors(s: Sector): nat {
    Dword(LdWord(s, 14) + FatArea(s) + LdWord(s, 17) / 16)
  }

  /** Clusters on a volume that has at least its system sectors. */
  function ClusterCount(s: Sector): nat
    requires s[13] > 0 && TotalSectors(s) >= SystemSectors(s)
  {
    Whole(TotalSectors(s) - SystemSectors(s), s[13])
  }

  /** How many times `n` fits in. */
  function Whole(m: nat, n: nat): nat
    requires n > 0
  {
    m / n
  }

  const MIN_FAT16 := 4086
  const MIN_FAT32 := 65526

  /** The number of clusters decides the sub-type. */
  function SubType(n: nat): FatType {
    if n >= MIN_FAT32 then Fat32 else if n >= MIN_FAT16 then Fat16 else Fat12
  }

  /** Bytes a FAT of `n` entries is found to need. */
  function NeededBytes(t: FatType, n: nat): nat {
    match t
    case Fat32 => Dword(n * 4)
    case Fat16 => Dword(n * 2)
    case Fat12 => Dword(Dword(n * 3) / 2 + n % 2)
  }

  /** Sector size, number of FATs, cluster size, root entries and reserved sectors are possible ones. */
  predicate FieldsPossible(s: Sector) {
    && LdWord(s, 11) == 512
    && s[16] in {1, 2}
    && PowerOfTwo(s[13])
    && LdWord(s, 17) % 16 == 0
    && LdWord(s, 14) != 0
  }

  /** The boot sectors that describe a volume find_volume accepts. */
  predicate Acceptable(s: Sector) {
    && FieldsPossible(s)
    && TotalSectors(s) >= SystemSectors(s) + s[13]
    && (var n := ClusterCount(s);
        && (SubType(n) == Fat32 <==> LdWord(s, 17) == 0)
        && FatSize(s) >= Dword(NeededBytes(SubType(n), Dword(n + 2)) + 511) / 512)
  }

  /** The geometry an accepted boot sector at `bsect` gives. */
  function GeoOf(s: Sector, bsect: nat): Geo
    requires s[13] > 0 && TotalSectors(s) >= SystemSectors(s)
  {
    var n := ClusterCount(s);
    var fatbase := Dword(bsect + LdWord(s, 14));
    Geo(SubType(n), s[13], s[16], LdWord(s, 17), Dword(n + 2), FatSize(s), bsect, fatbase,
        if SubType(n) == Fat32 then LdDword(s, 44) else Dword(fatbase + FatArea(s)),
        Dword(bsect + SystemSectors(s)))
  }

  /** No 32-bit sum wraps and no cluster number reaches the end marks; find_volume checks neither. */
  predicate Unwrapped(s: Sector)
    requires s[13] > 0 && TotalSectors(s) >= SystemSectors(s)
  {
    && LdWord(s, 14) + FatSize(s) * s[16] + LdWord(s, 17) / 16 < 0x1_0000_0000
    && ClusterCount(s) + 2 <= EndMark(SubType(ClusterCount(s)))
  }

  /** An accepted volume that the drive holds has the geometry every later step relies on, if and only if its
      boot sector makes no sum wrap. For FAT12 and FAT16 the cluster numbers never reach the end marks. */
  lemma AcceptedGeometry(s: Sector, bsect: nat, total: nat)
    requires Acceptable(s) && bsect + TotalSectors(s) <= total <= 0x1_0000_0000
    ensures FatGeo(GeoOf(s, bsect), total) && DataGeo(GeoOf(s, bsect), total) <==> Unwrapped(s)
    ensures SubType(ClusterCount(s)) != Fat32 ==> ClusterCount(s) + 2 <= EndMark(SubType(ClusterCount(s)))
  {
    if Unwrapped(s) {
      UnwrappedFits(s, bsect, total);
    } else if FatGeo(GeoOf(s, bsect), total) && DataGeo(GeoOf(s, bsect), total) {
      FitsUnwrapped(s, bsect, total);
    }
  }

  lemma UnwrappedFits(s: Sector, bsect: nat, total: nat)
    requires Acceptable(s) && bsect + TotalSectors(s) <= total <= 0x1_0000_0000 && Unwrapped(s)
    ensures FatGeo(GeoOf(s, bsect), total) && DataGeo(GeoOf(s, bsect), total)
  {
    assert s[13] > 0;
    hide LdWord, LdDword, PowerOfTwo, FatSize, TotalSectors, ClusterCount, NeededBytes, PowerOfTwoByte, FatGeo, DataGeo;
    BytePower(s[13]);
    var n := ClusterCount(s);
    ClustersFit(s);
    SystemExact(s);
    NeededRange(SubType(n), n + 2);
    hide FatArea, SystemSectors, SubType;
    FitsWhenUnwrapped(GeoOf(s, bsect), n, LdWord(s, 14), TotalSectors(s), total);
  }

  lemma ClustersFit(s: Sector)
    requires s[13] > 0 && TotalSectors(s) >= SystemSectors(s) + s[13]
    ensures 1 <= ClusterCount(s) && ClusterCount(s) * s[13] <= TotalSectors(s) - SystemSectors(s)
  {
    Quotient(TotalSectors(s) - SystemSectors(s), s[13]);
  }

  lemma SystemExact(s: Sector)
    requires s[16] in {1, 2} && LdWord(s, 14) + FatSize(s) * s[16] + LdWord(s, 17) / 16 < 0x1_0000_0000
    ensures FatArea(s) == if s[16] == 2 then 2 * FatSize(s) else FatSize(s)
    ensures SystemSectors(s) == LdWord(s, 14) + FatArea(s) + LdWord(s, 17) / 16
  {
    hide FatSize;
    var f := FatSize(s);
    if s[16] == 2 {
      assert f * s[16] == 2 * f;
    } else {
      assert s[16] == 1 && f * s[16] == f;
    }
  }

  lemma NeededRange(t: FatType, n: nat)
    requires n <= EndMark(t)
    ensures NeededBytes(t, n) == FatBytesNeeded(t, n) && NeededBytes(t, n) + 511 < 0x1_0000_0000
  {
  }

  lemma FitsUnwrapped(s: Sector, bsect: nat, total: nat)
    requires Acceptable(s) && bsect + TotalSectors(s) <= total <= 0x1_0000_0000
    requires FatGeo(GeoOf(s, bsect), total) && DataGeo(GeoOf(s, bsect), total)
    ensures Unwrapped(s)
  {
    Quotient(TotalSectors(s) - SystemSectors(s), s[13]);
    hide LdWord, LdDword, PowerOfTwo, FatSize, TotalSectors, ClusterCount, NeededBytes, FatGeo, DataGeo;
    WrappedUnfit(GeoOf(s, bsect), ClusterCount(s), LdWord(s, 14), TotalSectors(s), total);
  }

  /** Numbers that passed the checks of a mount without any sum wrapping. */
  lemma FitsWhenUnwrapped(g: Geo, n: nat, rsv: nat, tot: nat, total: nat)
    requires (g.nFats == 1 || g.nFats == 2) && PowerOfTwoByte(g.csize) && g.nRootdir % 16 == 0 && rsv > 0
    requires g.fsType == SubType(n) && (g.fsType == Fat32 <==> g.nRootdir == 0)
    requires 1 <= n && n + 2 <= EndMark(g.fsType) && g.nFatent == n + 2
    requires g.fsize >= (NeededBytes(g.fsType, n + 2) + 511) / 512
    requires var sys := rsv + (if g.nFats == 2 then 2 * g.fsize else g.fsize) + g.nRootdir / 16;
             n * g.csize + sys <= tot && g.database == g.volbase + sys
    requires g.volbase + tot <= total <= 0x1_0000_0000 && g.fatbase == g.volbase + rsv
    requires g.fsType != Fat32 ==> g.dirbase == g.fatbase + if g.nFats == 2 then 2 * g.fsize else g.fsize
    ensures FatGeo(g, total) && DataGeo(g, total)
  {
  }

  lemma WrappedUnfit(g: Geo, n: nat, rsv: nat, tot: nat, total: nat)
    requires FatGeo(g, total) && DataGeo(g, total) && g.nFatent == Dword(n + 2) && n + 2 < 0x1_0000_0002
    requires g.fatbase == Dword(g.volbase + rsv) && rsv < 0x1_0000 && g.volbase < 0x1_0000_0000
    requires n >= 1
    ensures rsv + g.fsize * g.nFats + g.nRootdir / 16 < 0x1_0000_0000 && n + 2 <= EndMark(g.fsType)
  {
    assert g.csize >= 1;
    hide PowerOfTwoByte;
    assert g.volbase + rsv >= 0x1_0000_0000 ==> g.fatbase == g.volbase + rsv - 0x1_0000_0000;
    MulMonotone(1, g.nFatent - 2, g.csize);
    if g.nFats == 2 {
      assert g.fsize * g.nFats == 2 * g.fsize;
    } else {
      assert g.fsize * g.nFats == g.fsize;
    }
  }

  lemma Quotient(x: nat, d: nat)
    requires d > 0 && x >= d
    ensures x / d >= 1 && x / d * d <= x && x / d <= x
  {
    DivLess(0, d, 1);
    MulMonotone(1, d, x / d);
  }

  // ----- the regions of a mounted volume -----

  /** Every FAT access lies inside the first FAT copy; the FAT copies, the root directory and the clusters
      follow each other without overlap and end inside the volume. */
  lemma MountedRegions(g: Geo, total: nat)
    requires FatGeo(g, total) && DataGeo(g, total)
    ensures forall c: nat | c < g.nFatent :: EntryOffset(g.fsType, c) + EntrySize(g.fsType) <= g.fsize * 512
    ensures g.volbase < g.fatbase < FatEnd(g) <= g.database
    ensures g.fsType != Fat32 ==> g.dirbase == FatEnd(g) && g.dirbase + g.nRootdir / 16 == g.database
    ensures forall c: nat | 2 <= c < g.nFatent ::
              ClustToSect(g, c) >= g.database && ClustToSect(g, c) + g.csize <= total
    ensures forall c: nat, d: nat | 2 <= c < d < g.nFatent :: ClustToSect(g, c) + g.csize <= ClustToSect(g, d)
  {
    forall c: nat | c < g.nFatent ensures EntryOffset(g.fsType, c) + EntrySize(g.fsType) <= g.fsize * 512 {
      EntryInside(g.fsType, g.nFatent, c);
      EntryInside(g.fsType, c + 1, c);
    }
    forall c: nat | 2 <= c < g.nFatent ensures ClustToSect(g, c) >= g.database && ClustToSect(g, c) + g.csize <= total {
      MulMonotone(c - 1, g.nFatent - 2, g.csize);
      assert (c - 1) * g.csize == (c - 2) * g.csize + g.csize;
    }
    forall c: nat, d: nat | 2 <= c < d < g.nFatent ensures ClustToSect(g, c) + g.csize <= ClustToSect(g, d) {
      MulMonotone(c - 1, d - 2, g.csize);
      assert (c - 1) * g.csize == (c - 2) * g.csize + g.csize;
    }
  }

  // ----- the mount -----

  /** 0: a FAT boot sector, 1: a boot sector without FAT, 2: no boot sector. */
  function BootKind(s: Sector): nat {
    if LdWord(s, 510) != 0xAA55 then 2
    else if LdDword(s, 54) % 0x100_0000 == 0x544146 || LdDword(s, 82) % 0x100_0000 == 0x544146 then 0
    else 1
  }

  /** The window after check_fs looked at `sect` of drive `d`: sector 0xFFFFFFFF counts as loaded already, and a
      sector the drive does not have leaves the window. */
  function Loaded(d: seq<Sector>, w: Sector, sect: nat): Sector {
    if sect == 0xFFFF_FFFF || sect >= |d| then w else d[sect]
  }

  /** What check_fs answers; 3: the drive failed. */
  function KindOf(d: seq<Sector>, w: Sector, sect: nat): nat {
    if sect != 0xFFFF_FFFF && sect >= |d| then 3 else BootKind(Loaded(d, w, sect))
  }

  /** Start sectors of the four partitions, 0 for one that is not there. */
  function PartitionStart(s: Sector, i: nat): nat
    requires i < 4
  {
    if s[446 + 16 * i + 4] != 0 then LdDword(s, 446 + 16 * i + 8) else 0
  }

  /** Partition `i` of a drive begins with a FAT boot sector. */
  predicate FatPartition(d: seq<Sector>, i: nat)
    requires |d| > 0 && i < 4
  {
    0 < PartitionStart(d[0], i) < |d| && BootKind(d[PartitionStart(d[0], i)]) == 0
  }

  /** The first partition from the `i`-th on that does, 4 if there is none. */
  function FirstPartition(d: seq<Sector>, i: nat): (r: nat)
    requires |d| > 0 && i <= 4
    ensures i <= r <= 4 && (r < 4 ==> FatPartition(d, r)) && forall j | i <= j < r :: !FatPartition(d, j)
    decreases 4 - i
  {
    if i == 4 || FatPartition(d, i) then i else FirstPartition(d, i + 1)
  }

  /** Where the volume is that find_volume takes: in sector 0 when that is a FAT boot sector; in the first partition
      with a FAT boot sector when sector 0 is a boot sector of another kind; else nowhere, which is told as the drive
      size. */
  function BootAt(d: seq<Sector>): (at: nat) {
    if |d| == 0 then 0
    else if BootKind(d[0]) == 0 then 0
    else if BootKind(d[0]) == 1 && FirstPartition(d, 0) < 4 then PartitionStart(d[0], FirstPartition(d, 0))
    else |d|
  }

  /** The search ends in a disk error: the drive is empty, or no volume was found and the fourth partition, the last
      that is looked at, begins behind the drive. */
  predicate SearchFails(d: seq<Sector>) {
    |d| == 0 || (BootKind(d[0]) == 1 && FirstPartition(d, 0) == 4 && |d| <= PartitionStart(d[0], 3) != 0xFFFF_FFFF)
  }

  method CheckFs(fs: Fatfs, sect: nat) returns (kind: nat)
    requires fs.win.Length == 512
    modifies fs`wflag, fs`winsect, fs.win
    ensures kind == KindOf(fs.disk, old(fs.win[..]), sect) && fs.win[..] == Loaded(fs.disk, old(fs.win[..]), sect)
    ensures !fs.wflag && (kind != 3 ==> fs.winsect == sect)
  {
    hide BootKind;
    fs.wflag := false;
    fs.winsect := 0xFFFF_FFFF;
    if sect != fs.winsect {
      if sect >= |fs.disk| {
        return 3;
      }
      DiskReadWin(fs, sect);
      fs.winsect := sect;
    }
    kind := BootKindOf(fs);
  }

  method BootKindOf(fs: Fatfs) returns (kind: nat)
    requires fs.win.Length == 512
    ensures kind == BootKind(fs.win[..])
  {
    if LdWord(fs.win[..], 510) != 0xAA55 {
      return 2;
    }
    if LdDword(fs.win[..], 54) % 0x100_0000 == 0x544146 {
      return 0;
    }
    if LdDword(fs.win[..], 82) % 0x100_0000 == 0x544146 {
      return 0;
    }
    return 1;
  }

  /** Finds the FAT volume. Sector 0xFFFFFFFF counts as loaded, but the window never holds a FAT boot sector then. */
  method FindBoot(fs: Fatfs) returns (fmt: nat, bsect: nat)
    requires fs.win.Length == 512 && |fs.disk| <= 0xFFFF_FFFF
    modifies fs`wflag, fs`winsect, fs.win
    ensures !fs.wflag
    ensures fmt == 0 <==> BootAt(fs.disk) < |fs.disk|
    ensures fmt == 0 ==> bsect == BootAt(fs.disk) == fs.winsect && fs.win[..] == fs.disk[bsect]
    ensures fmt == 3 <==> SearchFails(fs.disk)
  {
    hide BootKind, KindOf;
    KindMeans(fs.disk, fs.win[..], 0);
    bsect := 0;
    fmt := CheckFs(fs, bsect);
    if fmt == 1 {
      var w: Sector := fs.win[..];
      var br := seq(4, i requires 0 <= i < 4 => PartitionStart(w, i));
      hide PartitionStart, Loaded;
      var i := 0;
      fmt, bsect := TryPartition(fs, br, i);
      while fmt != 0 && i + 1 < 4
        invariant 0 <= i < 4 && !fs.wflag && br[i] == bsect
        invariant fmt == 0 <==> FatPartition(fs.disk, i)
        invariant fmt == 0 ==> fs.winsect == bsect && fs.win[..] == fs.disk[bsect]
        invariant fmt != 0 ==> BootKind(fs.win[..]) != 0
        invariant fmt == 3 <==> |fs.disk| <= bsect != 0xFFFF_FFFF
        invariant forall j | 0 <= j < i :: !FatPartition(fs.disk, j)
        decreases 4 - i
      {
        i := i + 1;
        fmt, bsect := TryPartition(fs, br, i);
      }
    }
  }

  /** A sector that was looked at, when the window did not hold a FAT boot sector before. */
  lemma KindMeans(d: seq<Sector>, w: Sector, sect: nat)
    requires |d| <= 0xFFFF_FFFF
    ensures KindOf(d, w, sect) == 3 <==> |d| <= sect != 0xFFFF_FFFF
    ensures sect < |d| ==> KindOf(d, w, sect) == BootKind(d[sect]) && Loaded(d, w, sect) == d[sect]
    ensures sect >= |d| ==> Loaded(d, w, sect) == w && (sect == 0xFFFF_FFFF ==> KindOf(d, w, sect) == BootKind(w))
  {
  }

  /** One partition looked at; `br` is read from sector 0, the window holds no FAT boot sector yet. */
  method TryPartition(fs: Fatfs, br: seq<nat>, i: nat) returns (fmt: nat, bsect: nat)
    requires fs.win.Length == 512 && 0 < |fs.disk| <= 0xFFFF_FFFF && !fs.wflag && BootKind(fs.win[..]) != 0
    requires |br| == 4 && i < 4 && br[i] == PartitionStart(fs.disk[0], i)
    modifies fs`wflag, fs`winsect, fs.win
    ensures bsect == br[i] && !fs.wflag
    ensures fmt == 0 <==> FatPartition(fs.disk, i)
    ensures fmt == 0 ==> fs.winsect == bsect && fs.win[..] == fs.disk[bsect]
    ensures fmt != 0 ==> BootKind(fs.win[..]) != 0
    ensures fmt == 3 <==> |fs.disk| <= bsect != 0xFFFF_FFFF
  {
    hide BootKind, KindOf, Loaded, PartitionStart;
    bsect := br[i];
    KindMeans(fs.disk, fs.win[..], bsect);
    if bsect != 0 {
      fmt := CheckFs(fs, bsect);
    } else {
      fmt := 2;
    }
  }

  /** The first five of them. */
  method CheckFields(w: Sector) returns (ok: bool)
    ensures ok <==> FieldsPossible(w)
    ensures ok ==> w[13] > 0
  {
    assert !PowerOfTwo(0);
    hide LdWord, PowerOfTwo;
    if LdWord(w, 11) != 512 {
      return false;
    }
    if w[16] != 1 && w[16] != 2 {
      return false;
    }
    if w[13] == 0 || !PowerOfTwo(w[13]) {
      return false;
    }
    if LdWord(w, 17) % 16 != 0 {
      return false;
    }
    ok := LdWord(w, 14) != 0;
  }

  lemma WholeZero(m: nat, n: nat)
    requires n > 0
    ensures Whole(m, n) == 0 <==> m < n
  {
    DivLess(m, n, 1);
  }

  /** The checks of a boot sector in the window, one after the other. */
  method ReadBpb(fs: Fatfs, bsect: nat) returns (res: FResult)
    requires fs.win.Length == 512
    modifies fs`geo
    ensures res == if Acceptable(fs.win[..]) then FrOk else FrNoFilesystem
    ensures res == FrOk ==> fs.geo == GeoOf(fs.win[..], bsect)
  {
    hide LdWord, LdDword, FieldsPossible, FatSize, TotalSectors, SystemSectors, FatArea, SubType, NeededBytes, Dword;
    hide GeoOf, Whole;
    var w: Sector := fs.win[..];
    var ok := CheckFields(w);
    if !ok {
      return FrNoFilesystem;
    }
    if TotalSectors(w) < SystemSectors(w) {
      return FrNoFilesystem;
    }
    var nclst := ClusterCount(w);
    WholeZero(TotalSectors(w) - SystemSectors(w), w[13]);
    if nclst == 0 {
      return FrNoFilesystem;
    }
    res := SetGeometry(fs, bsect, nclst);
  }

  /** Sub-type, boundaries and limits for `nclst` clusters. */
  method SetGeometry(fs: Fatfs, bsect: nat, nclst: nat) returns (res: FResult)
    requires fs.win.Length == 512 && fs.win[13] > 0 && TotalSectors(fs.win[..]) >= SystemSectors(fs.win[..])
    requires nclst == ClusterCount(fs.win[..])
    modifies fs`geo
    ensures res == FrOk <==> (SubType(nclst) == Fat32 <==> LdWord(fs.win[..], 17) == 0) &&
                             FatSize(fs.win[..]) >= Dword(NeededBytes(SubType(nclst), Dword(nclst + 2)) + 511) / 512
    ensures res in {FrOk, FrNoFilesystem}
    ensures res == FrOk ==> fs.geo == GeoOf(fs.win[..], bsect)
  {
    hide LdWord, LdDword, FatSize, TotalSectors, SystemSectors, FatArea, SubType, Dword, ClusterCount;
    var w: Sector := fs.win[..];
    var fmt, nFatent, fatbase := SubType(nclst), Dword(nclst + 2), Dword(bsect + LdWord(w, 14));
    var dirbase, szbfat;
    if fmt == Fat32 {
      if LdWord(w, 17) != 0 {
        return FrNoFilesystem;
      }
      dirbase := LdDword(w, 44);
      szbfat := Dword(nFatent * 4);
    } else {
      if LdWord(w, 17) == 0 {
        return FrNoFilesystem;
      }
      dirbase := Dword(fatbase + FatArea(w));
      szbfat := if fmt == Fat16 then Dword(nFatent * 2) else Dword(Dword(nFatent * 3) / 2 + nFatent % 2);
    }
    if FatSize(w) < Dword(szbfat + 511) / 512 {
      return FrNoFilesystem;
    }
    fs.geo := Geo(fmt, w[13], w[16], LdWord(w, 17), nFatent, FatSize(w), bsect, fatbase, dirbase,
      Dword(bsect + SystemSectors(w)));
    return FrOk;
  }

  /** The sector carries the signatures of FSINFO. */
  predicate IsFsInfo(s: Sector) {
    LdWord(s, 510) == 0xAA55 && LdDword(s, 0) == 0x41615252 && LdDword(s, 484) == 0x61417272
  }

  /** Volume `g` with boot sector `w` on drive `d` has an FSINFO sector to keep up to date. */
  predicate HasFsInfo(g: Geo, w: Sector, d: seq<Sector>) {
    g.fsType == Fat32 && LdWord(w, 48) == 1 && g.volbase + 1 < |d|
  }

  /** The free cluster count and the last allocated cluster a mount starts with. */
  function MountedCounts(g: Geo, w: Sector, d: seq<Sector>): (nat, dword) {
    if HasFsInfo(g, w, d) && IsFsInfo(d[g.volbase + 1])
    then (LdDword(d[g.volbase + 1], 488), LdDword(d[g.volbase + 1], 492))
    else (UNKNOWN, UNKNOWN)
  }

  method LoadFsInfo(fs: Fatfs)
    requires fs.win.Length == 512 && !fs.wflag && fs.winsect == fs.geo.volbase < |fs.disk|
             && fs.win[..] == fs.disk[fs.winsect]
    modifies fs`freeClust, fs`lastClust, fs`fsiDirty, fs`fsiDisabled, fs`winsect, fs.win
    ensures (fs.freeClust, fs.lastClust) == MountedCounts(fs.geo, old(fs.win[..]), fs.disk)
    ensures fs.fsiDisabled == !HasFsInfo(fs.geo, old(fs.win[..]), fs.disk) && !fs.fsiDirty
    ensures fs.winsect == fs.geo.volbase + (if fs.fsiDisabled then 0 else 1) < |fs.disk|
            && fs.win[..] == fs.disk[fs.winsect]
  {
    hide LdWord, LdDword;
    fs.lastClust, fs.freeClust := UNKNOWN, UNKNOWN;
    fs.fsiDirty, fs.fsiDisabled := false, true;
    if fs.geo.fsType == Fat32 && LdWord(fs.win[..], 48) == 1 && fs.geo.volbase + 1 < |fs.disk| {
      DiskReadWin(fs, fs.geo.volbase + 1);
      fs.winsect := fs.geo.volbase + 1;
      fs.fsiDisabled := false;
      if IsFsInfo(fs.win[..]) {
        fs.freeClust := LdDword(fs.win[..], 488);
        fs.lastClust := LdDword(fs.win[..], 492);
      }
    }
  }

  /** The FAT copies on the drive are equal, which a mount does not check. */
  ghost predicate CopiesAgree(g: Geo, d: seq<Sector>) {
    FatEnd(g) <= |d| && Mirrored(g, d)
  }

  /** The invariants of the access layer hold on a volume whose copies agree. */
  lemma MountedValid(fs: Fatfs)
    requires FatGeo(fs.geo, |fs.disk|) && Mirrored(fs.geo, fs.disk) && fs.win.Length == 512
    requires !fs.wflag && fs.logical == fs.disk && fs.fat == TableOf(fs.geo, fs.disk)
    requires fs.winsect == fs.geo.volbase || fs.winsect == fs.geo.volbase + 1
    requires fs.winsect < |fs.disk| && fs.win[..] == fs.disk[fs.winsect]
    ensures fs.Valid()
  {
    hide TableOf;
    assert Overlay(fs.geo, fs.disk, fs.winsect, fs.win[..]) == fs.disk;
  }

  /** find_volume. It takes the volume at `BootAt` if and only if its boot sector is acceptable; that volume is fit for
      every operation as soon as its boot sector makes no sum wrap, the drive holds it, and its FAT copies agree. */
  method FindVolume(fs: Fatfs) returns (res: FResult)
    requires fs.win.Length == 512 && |fs.disk| <= 0xFFFF_FFFF
    modifies fs, fs.win
    ensures fs.disk == old(fs.disk)
    ensures BootAt(fs.disk) == |fs.disk| ==> res == if SearchFails(fs.disk) then FrDiskErr else FrNoFilesystem
    ensures var at := BootAt(fs.disk);
            at < |fs.disk| ==>
              var w := fs.disk[at];
              && res == (if Acceptable(w) then FrOk else FrNoFilesystem)
              && (res == FrOk ==> fs.geo == GeoOf(w, at))
              && (res == FrOk ==> (fs.geo.fsType == Fat12 <==> ClusterCount(w) < 4086))
              && (res == FrOk ==> (fs.geo.fsType == Fat16 <==> 4086 <= ClusterCount(w) < 65526))
              && (res == FrOk ==> (fs.geo.fsType == Fat32 <==> ClusterCount(w) >= 65526))
              && (res == FrOk && at + TotalSectors(w) <= |fs.disk| && Unwrapped(w) && CopiesAgree(fs.geo, fs.disk) ==>
                    && fs.Valid() && DataGeo(fs.geo, |fs.disk|) && fs.logical == fs.disk && !fs.wflag
                    && !fs.fsiDirty && fs.fsiDisabled == !HasFsInfo(fs.geo, w, fs.disk)
                    && (fs.freeClust, fs.lastClust) == MountedCounts(fs.geo, w, fs.disk))
  {
    hide BootAt, SearchFails, Acceptable, GeoOf, Unwrapped, Fatfs.Valid, TotalSectors, TableOf, FatGeo, DataGeo;
    hide MountedCounts;
    hide HasFsInfo, CopiesAgree, ClusterCount, SystemSectors;
    BootAtRange(fs.disk);
    var fmt, bsect := FindBoot(fs);
    if fmt == 3 {
      return FrDiskErr;
    }
    if fmt != 0 {
      return FrNoFilesystem;
    }
    ghost var w := fs.disk[bsect];
    res := ReadBpb(fs, bsect);
    if res != FrOk {
      return;
    }
    GeoBase(w, bsect);
    LoadFsInfo(fs);
    fs.logical := fs.disk;
    if bsect + TotalSectors(w) <= |fs.disk| && Unwrapped(w) && CopiesAgree(fs.geo, fs.disk) {
      UnwrappedFits(w, bsect, |fs.disk|);
      fs.fat := TableOf(fs.geo, fs.disk);
      VolumeInside(w, bsect);
      AgreeingCopies(fs.geo, fs.disk);
      MountedValid(fs);
    }
  }

  /** A drive on which the search fails has no volume. */
  lemma BootAtRange(d: seq<Sector>)
    ensures BootAt(d) <= |d| && (SearchFails(d) ==> BootAt(d) == |d|)
  {
  }

  lemma AgreeingCopies(g: Geo, d: seq<Sector>)
    requires CopiesAgree(g, d)
    ensures FatEnd(g) <= |d| && Mirrored(g, d)
  {
  }

  lemma GeoBase(w: Sector, bsect: nat)
    requires Acceptable(w)
    ensures w[13] > 0 && TotalSectors(w) >= SystemSectors(w) && GeoOf(w, bsect).volbase == bsect
    ensures var t, n := GeoOf(w, bsect).fsType, ClusterCount(w);
            (t == Fat12 <==> n < 4086) && (t == Fat16 <==> 4086 <= n < 65526) && (t == Fat32 <==> n >= 65526)
  {
  }

  lemma VolumeInside(w: Sector, bsect: nat)
    requires Acceptable(w)
    ensures TotalSectors(w) > 0
  {
  }

  // ----- three boot sectors, field by field -----

  /** Where the four partitions are told, in figures: type and first sector. */
  lemma PartitionFields(s: Sector)
    ensures PartitionStart(s, 0) == if s[450] == 0 then 0 else LdDword(s, 454)
    ensures PartitionStart(s, 1) == if s[466] == 0 then 0 else LdDword(s, 470)
    ensures PartitionStart(s, 2) == if s[482] == 0 then 0 else LdDword(s, 486)
    ensures PartitionStart(s, 3) == if s[498] == 0 then 0 else LdDword(s, 502)
  {
    hide LdDword;
  }

  /** The boot sector of a 1.44 MB floppy disk. */
  function FloppyBoot(): Sector {
    seq(512, i => if i == 12 then 2 else if i == 13 then 1 else if i == 14 then 1 else if i == 16 then 2
                  else if i == 17 then 0xE0 else if i == 19 then 0x40 else if i == 20 then 0x0B
                  else if i == 21 then 0xF0 else if i == 22 then 9
                  else if i == 54 then 0x46 else if i == 55 then 0x41 else if i == 56 then 0x54
                  else if i == 510 then 0x55 else if i == 511 then 0xAA else 0)
  }

  /** It is taken as FAT12, with 2847 clusters behind 33 sectors. */
  lemma FloppyAccepted(d: seq<Sector>)
    requires |d| > 0 && d[0] == FloppyBoot()
    ensures BootAt(d) == 0 && Acceptable(d[0]) && TotalSectors(d[0]) == 2880 && ClusterCount(d[0]) == 2847
    ensures GeoOf(d[0], 0) == Geo(Fat12, 1, 2, 224, 2849, 9, 0, 1, 19, 33)
  {
    FloppyFields();
    hide FloppyBoot, LdWord, LdDword;
    assert SystemSectors(d[0]) == 33;
  }

  lemma FloppyFields()
    ensures var s := FloppyBoot();
            && LdWord(s, 11) == 512 && LdWord(s, 14) == 1 && LdWord(s, 17) == 224 && LdWord(s, 19) == 2880
            && LdWord(s, 22) == 9 && s[13] == 1 && s[16] == 2
            && LdWord(s, 510) == 0xAA55 && LdDword(s, 54) == 0x54_4146
  {
  }

  /** The partition table of a disk with three partitions; the first entry is not in use. */
  function PartitionTable(): Sector {
    seq(512, i => if i == 454 then 5 else if i == 466 then 0x83 else if i == 470 then 9
                  else if i == 482 then 6 else if i == 486 then 0x3F else if i == 498 then 6 else if i == 503 then 0x10
                  else if i == 510 then 0x55 else if i == 511 then 0xAA else 0)
  }

  /** The boot sector of a volume of 65536 sectors with two FATs of 64, 512 root entries and 4 sectors per cluster. */
  function DiskBoot(): Sector {
    seq(512, i => if i == 12 then 2 else if i == 13 then 4 else if i == 14 then 1 else if i == 16 then 2
                  else if i == 18 then 2 else if i == 21 then 0xF8 else if i == 22 then 0x40 else if i == 34 then 1
                  else if i == 54 then 0x46 else if i == 55 then 0x41 else if i == 56 then 0x54
                  else if i == 510 then 0x55 else if i == 511 then 0xAA else 0)
  }

  /** With that volume in the third partition and another file system in the second, the third is taken, as FAT16 with
      16343 clusters. */
  lemma PartitionAccepted(d: seq<Sector>)
    requires |d| > 63 && d[0] == PartitionTable() && BootKind(d[5]) == 0 && BootKind(d[9]) != 0 && d[63] == DiskBoot()
    ensures BootAt(d) == 63 && Acceptable(d[63]) && TotalSectors(d[63]) == 65536 && ClusterCount(d[63]) == 16343
    ensures GeoOf(d[63], 63) == Geo(Fat16, 4, 2, 512, 16345, 64, 63, 64, 192, 224)
  {
    PartitionTableFields();
    DiskFields();
    hide DiskBoot, PartitionTable, LdWord, LdDword, PartitionStart;
    assert SystemSectors(d[63]) == 161;
    assert PowerOfTwo(4) by {
      assert PowerOfTwo(2);
    }
    assert !FatPartition(d, 0) && !FatPartition(d, 1) && FatPartition(d, 2);
    assert FirstPartition(d, 0) == 2;
  }

  lemma PartitionTableFields()
    ensures var s := PartitionTable();
            && PartitionStart(s, 0) == 0 && PartitionStart(s, 1) == 9 && PartitionStart(s, 2) == 63
            && PartitionStart(s, 3) == 0x1000 && BootKind(s) == 1
  {
  }

  lemma DiskFields()
    ensures var s := DiskBoot();
            && LdWord(s, 11) == 512 && LdWord(s, 14) == 1 && LdWord(s, 17) == 512 && LdWord(s, 19) == 0
            && LdWord(s, 22) == 64 && LdDword(s, 32) == 65536 && s[13] == 4 && s[16] == 2
            && LdWord(s, 510) == 0xAA55 && LdDword(s, 54) == 0x54_4146
  {
  }

  /** The boot sector of a volume of 1048576 sectors: 32 reserved, two FATs of 1022, 8 sectors per cluster. */
  function CardBoot(): Sector {
    seq(512, i => if i == 12 then 2 else if i == 13 then 8 else if i == 14 then 32 else if i == 16 then 2
                  else if i == 21 then 0xF8 else if i == 34 then 0x10 else if i == 36 then 0xFE else if i == 37 then 3
                  else if i == 44 then 2 else if i == 48 then 1 else if i == 50 then 6
                  else if i == 82 then 0x46 else if i == 83 then 0x41 else if i == 84 then 0x54
                  else if i == 510 then 0x55 else if i == 511 then 0xAA else 0)
  }

  /** It is taken as FAT32 with 130812 clusters, the root directory in cluster 2 and FSINFO in sector 1. */
  lemma CardAccepted(d: seq<Sector>)
    requires |d| > 1 && d[0] == CardBoot()
    ensures BootAt(d) == 0 && Acceptable(d[0]) && TotalSectors(d[0]) == 1048576 && ClusterCount(d[0]) == 130812
    ensures GeoOf(d[0], 0) == Geo(Fat32, 8, 2, 0, 130814, 1022, 0, 32, 2, 2076) && HasFsInfo(GeoOf(d[0], 0), d[0], d)
  {
    CardFields();
    CardName();
    hide CardBoot, LdWord, LdDword;
    assert SystemSectors(d[0]) == 2076;
    assert PowerOfTwo(8) by {
      assert PowerOfTwo(2) && PowerOfTwo(4);
    }
  }

  lemma CardFields()
    ensures var s := CardBoot();
            && LdWord(s, 11) == 512 && LdWord(s, 14) == 32 && LdWord(s, 17) == 0 && LdWord(s, 19) == 0
            && LdWord(s, 22) == 0 && LdDword(s, 32) == 1048576 && LdDword(s, 36) == 1022 && LdDword(s, 44) == 2
            && LdWord(s, 48) == 1 && s[13] == 8 && s[16] == 2
  {
  }

  lemma CardName()
    ensures var s := CardBoot(); LdWord(s, 510) == 0xAA55 && LdDword(s, 54) == 0 && LdDword(s, 82) == 0x54_4146
  {
  }

  /** When a mount reads the FSINFO sector, and what: three signatures, the free count, the last cluster, in figures. */
  lemma FsInfoRead(g: Geo, w: Sector, d: seq<Sector>)
    ensures HasFsInfo(g, w, d) <==> g.fsType == Fat32 && w[48..50] == [1, 0] && g.volbase + 1 < |d|
    ensures !HasFsInfo(g, w, d) ==> MountedCounts(g, w, d) == (0xFFFF_FFFF, 0xFFFF_FFFF)
    ensures HasFsInfo(g, w, d) ==>
            var s := d[g.volbase + 1];
            MountedCounts(g, w, d) ==
            if s[0..4] == [0x52, 0x52, 0x61, 0x41] && s[484..488] == [0x72, 0x72, 0x41, 0x61]
               && s[510..] == [0x55, 0xAA]
            then (LdDword(s, 488), LdDword(s, 492)) else (0xFFFF_FFFF, 0xFFFF_FFFF)
  {
    WordIs(w, 48, 1, 0);
    if g.volbase + 1 < |d| {
      var s := d[g.volbase + 1];
      WordIs(s, 510, 0x55, 0xAA);
      DwordIs(s, 0, 0x52, 0x52, 0x61, 0x41);
      DwordIs(s, 484, 0x72, 0x72, 0x41, 0x61);
    }
    hide LdWord, LdDword;
  }

  /** A word has one pair of bytes. */
  lemma WordIs(s: seq<byte>, o: nat, a: byte, b: byte)
    requires o + 2 <= |s|
    ensures LdWord(s, o) == a as int + 0x100 * b as int <==> s[o..o + 2] == [a, b]
  {
  }

  lemma DwordIs(s: seq<byte>, o: nat, a: byte, b: byte, c: byte, d: byte)
    requires o + 4 <= |s|
    ensures (LdDword(s, o) == a as int + 0x100 * b as int + 0x1_0000 * c as int + 0x100_0000 * d as int)
            <==> s[o..o + 4] == [a, b, c, d]
  {
    var t := s[o..o + 4];
    assert t[0] == s[o] && t[1] == s[o + 1] && t[2] == s[o + 2] && t[3] == s[o + 3];
    if LdDword(s, o) == a as int + 0x100 * b as int + 0x1_0000 * c as int + 0x100_0000 * d as int {
      FourDigits(t[0], t[1], t[2], t[3], a, b, c, d);
    }
    assert t == [t[0], t[1], t[2], t[3]];
    hide *;
  }

  lemma FourDigits(x: byte, y: byte, z: byte, w: byte, a: byte, b: byte, c: byte, d: byte)
    requires x as int + 0x100 * y as int + 0x1_0000 * z as int + 0x100_0000 * w as int
             == a as int + 0x100 * b as int + 0x1_0000 * c as int + 0x100_0000 * d as int
    ensures x == a && y == b && z == c && w == d
  {
  }

  // ----- two boot sectors a mount should not take, and takes -----

  /** A FAT32 boot sector with two FATs of 0x80000400 sectors: their total wraps to 0x800. */
  function WrappedBoot(): Sector {
    seq(512, i => if i == 12 then 2 else if i == 13 then 1 else if i == 14 then 1 else if i == 16 then 2
                  else if i == 32 then 0x71 else if i == 33 then 0x19 else if i == 34 then 1
                  else if i == 37 then 4 else if i == 39 then 0x80
                  else if i == 82 then 0x46 else if i == 83 then 0x41 else if i == 84 then 0x54
                  else if i == 510 then 0x55 else if i == 511 then 0xAA else 0)
  }

  /** On every drive that begins with it find_volume takes the volume, although its second FAT copy would lie far behind
      the volume. */
  lemma WrappedAccepted(d: seq<Sector>)
    requires |d| >= 72049 && d[0] == WrappedBoot()
    ensures BootAt(d) == 0 && BootKind(d[0]) == 0 && Acceptable(d[0]) && !Unwrapped(d[0])
    ensures TotalSectors(d[0]) <= |d| && FatEnd(GeoOf(d[0], 0)) > 0x1_0000_0000
  {
    WrappedFields();
    hide WrappedBoot, LdWord, LdDword;
    var s := WrappedBoot();
    assert SystemSectors(s) == 2049 && ClusterCount(s) == 70000;
  }

  lemma WrappedFields()
    ensures var s := WrappedBoot();
            && LdWord(s, 11) == 512 && LdWord(s, 14) == 1 && LdWord(s, 17) == 0 && LdWord(s, 19) == 0
               && LdWord(s, 22) == 0
            && LdDword(s, 32) == 72049 && LdDword(s, 36) == 0x8000_0400 && s[13] == 1 && s[16] == 2
            && LdWord(s, 510) == 0xAA55 && LdDword(s, 82) == 0x54_4146
  {
  }

  /** A FAT32 boot sector with one reserved sector, one FAT of 547 sectors, 70000 clusters and FSINFO in sector 1. */
  function OneReservedBoot(): Sector {
    seq(512, i => if i == 12 then 2 else if i == 13 then 1 else if i == 14 then 1 else if i == 16 then 1
                  else if i == 32 then 0x94 else if i == 33 then 0x13 else if i == 34 then 1
                  else if i == 36 then 0x23 else if i == 37 then 2 else if i == 48 then 1
                  else if i == 82 then 0x46 else if i == 83 then 0x41 else if i == 84 then 0x54
                  else if i == 510 then 0x55 else if i == 511 then 0xAA else 0)
  }

  /** On every drive that begins with it find_volume takes the volume and keeps FSINFO up to date, in the first sector
      of the FAT: if entry 1 of the FAT is not zero, as in every formatted volume, writing FSINFO changes the FAT. */
  lemma OneReservedAccepted(d: seq<Sector>, freeClust: nat, lastClust: nat)
    requires 70548 <= |d| <= 0x1_0000_0000 && d[0] == OneReservedBoot()
    requires freeClust < 0x1_0000_0000 && lastClust < 0x1_0000_0000
    ensures BootAt(d) == 0 && BootKind(d[0]) == 0 && Acceptable(d[0]) && Unwrapped(d[0]) && TotalSectors(d[0]) <= |d|
    ensures var g := GeoOf(d[0], 0);
            && FatGeo(g, |d|) && DataGeo(g, |d|) && HasFsInfo(g, d[0], d) && g.volbase + 1 == g.fatbase
            && (TableOf(g, d)[1] != 0 ==>
                  TableOf(g, d[g.volbase + 1 := FsInfo(freeClust, lastClust)]) != TableOf(g, d))
  {
    OneReservedFields();
    hide OneReservedBoot, LdWord, LdDword, FatGeo, DataGeo, TableOf, FsInfo;
    var s := OneReservedBoot();
    assert SystemSectors(s) == 548 && ClusterCount(s) == 70000;
    assert PowerOfTwo(1);
    AcceptedGeometry(s, 0, |d|);
    var g := GeoOf(s, 0);
    if TableOf(g, d)[1] != 0 {
      FsInfoOverFat(g, d, freeClust, lastClust);
    }
  }

  lemma OneReservedFields()
    ensures var s := OneReservedBoot();
            && LdWord(s, 11) == 512 && LdWord(s, 14) == 1 && LdWord(s, 17) == 0 && LdWord(s, 19) == 0
               && LdWord(s, 22) == 0
            && LdDword(s, 32) == 70548 && LdDword(s, 36) == 547 && LdWord(s, 48) == 1 && s[13] == 1 && s[16] == 1
            && LdWord(s, 510) == 0xAA55 && LdDword(s, 82) == 0x54_4146
  {
  }
}
