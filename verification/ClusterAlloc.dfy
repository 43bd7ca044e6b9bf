/** remove_chain, create_chain and the free cluster count. */
module ClusterAlloc {
  import opened Bytes
  import opened Geometry
  import opened FatEntries
  import opened Volume
  import opened FatAccess
  import opened Chains

  const UNKNOWN := 0xFFFF_FFFF

  /** The cached number of free clusters is unknown or right. */
  ghost predicate FreeExact(fs: Fatfs)
    requires |fs.fat| >= 2
    reads fs`freeClust, fs`fat
  {
    fs.freeClust == UNKNOWN || fs.freeClust == FreeCount(fs.fat)
  }

  /** Marks one used cluster free and counts it. */
  method ReleaseCluster(fs: Fatfs, clst: nat)
    requires fs.Valid() && fs.freeClust < 0x1_0000_0000 && InTable(fs.fat, clst) && fs.fat[clst] != 0
    modifies fs`disk, fs`logical, fs`fat, fs`wflag, fs`winsect, fs`freeClust, fs`fsiDirty, fs.win
    ensures fs.Valid() && InFirstFat(fs.geo, fs.winsect)
    ensures SameOutsideFats(fs.geo, old(fs.logical), fs.logical)
    ensures fs.fat == old(fs.fat)[clst := 0]
    ensures FreeCount(fs.fat) == FreeCount(old(fs.fat)) + 1
    ensures fs.freeClust == if old(fs.freeClust) == UNKNOWN then UNKNOWN else (old(fs.freeClust) + 1) % 0x1_0000_0000
    ensures fs.fsiDirty == (old(fs.fsiDirty) || old(fs.freeClust) != UNKNOWN)
  {
    hide Fatfs.Valid, SameOutsideFats, Zeros;
    ZerosUpdate(fs.fat, 2, |fs.fat|, clst, 0);
    var res := PutFat(fs, clst, 0);
    if fs.freeClust != UNKNOWN {
      fs.freeClust := (fs.freeClust + 1) % 0x1_0000_0000;
      fs.fsiDirty := true;
    }
  }

  /** Frees the clusters linked from `clst`. */
  method RemoveChain(fs: Fatfs, clst: nat) returns (res: FResult)
    requires fs.Valid() && fs.freeClust < 0x1_0000_0000
    modifies fs`disk, fs`logical, fs`fat, fs`wflag, fs`winsect, fs`freeClust, fs`fsiDirty, fs.win
    ensures fs.Valid() && fs.freeClust < 0x1_0000_0000
    ensures SameOutsideFats(fs.geo, old(fs.logical), fs.logical)
    ensures fs.winsect == old(fs.winsect) || InFirstFat(fs.geo, fs.winsect)
    ensures !InTable(fs.fat, clst) ==> res == FrIntErr && fs.fat == old(fs.fat)
    ensures InTable(fs.fat, clst) ==> (fs.fat, res) == Removed(old(fs.fat), clst)
    ensures old(fs.freeClust) == UNKNOWN ==> fs.freeClust == UNKNOWN
    ensures old(fs.freeClust) + |fs.fat| < UNKNOWN ==>
              fs.freeClust == old(fs.freeClust) + FreeCount(fs.fat) - FreeCount(old(fs.fat))
    ensures fs.freeClust != old(fs.freeClust) ==> fs.fsiDirty
  {
    hide Fatfs.Valid, SameOutsideFats, FreeCount;
    if clst < 2 || clst >= fs.geo.nFatent {
      assert SameOutsideFats(fs.geo, fs.logical, fs.logical) by { SameOutsideRefl(fs.geo, fs.logical); }
      return FrIntErr;
    }
    res := FrOk;
    var clst := clst;
    ghost var fat0, clst0 := fs.fat, clst;
    ghost var freed := 0;
    SameOutsideRefl(fs.geo, fs.logical);
    FreeCountBound(fs.fat);
    while clst < fs.geo.nFatent
      invariant fs.Valid() && fs.freeClust < 0x1_0000_0000
      invariant SameOutsideFats(fs.geo, old(fs.logical), fs.logical)
      invariant fs.winsect == old(fs.winsect) || InFirstFat(fs.geo, fs.winsect)
      invariant clst >= 2 && res == FrOk
      invariant Removed(fs.fat, clst) == Removed(fat0, clst0)
      invariant FreeCount(fs.fat) == FreeCount(fat0) + freed <= |fs.fat|
      invariant old(fs.freeClust) == UNKNOWN ==> fs.freeClust == UNKNOWN
      invariant old(fs.freeClust) + |fs.fat| < UNKNOWN ==> fs.freeClust == old(fs.freeClust) + freed
      invariant fs.freeClust != old(fs.freeClust) ==> fs.fsiDirty
      decreases |fs.fat| - Zeros(fs.fat, 0, |fs.fat|), fs.geo.nFatent - clst
    {
      var nxt := GetFat(fs, clst);
      if nxt == 0 {
        break;
      }
      if nxt == 1 {
        res := FrIntErr;
        break;
      }
      ZerosUpdate(fs.fat, 0, |fs.fat|, clst, 0);
      FreeCountBound(fs.fat[clst := 0]);
      ghost var logical := fs.logical;
      ReleaseCluster(fs, clst);
      SameOutsideTrans(fs.geo, old(fs.logical), logical, fs.logical);
      freed := freed + 1;
      clst := nxt;
    }
  }

  lemma FreeCountBound(fat: seq<nat>)
    requires |fat| >= 2
    ensures FreeCount(fat) <= |fat| - 2
  {
  }

  /** Allocates one cluster: a new chain for `clst` 0, else one behind `clst` unless a successor exists.
      Answers 0 when the volume is full and 1 on a broken table. */
  method CreateChain(fs: Fatfs, clst: nat) returns (ncl: nat)
    requires fs.Valid() && fs.freeClust < 0x1_0000_0000
    modifies fs`disk, fs`logical, fs`fat, fs`wflag, fs`winsect, fs`lastClust, fs`freeClust, fs`fsiDirty, fs.win
    ensures fs.Valid() && fs.freeClust < 0x1_0000_0000
    ensures SameOutsideFats(fs.geo, old(fs.logical), fs.logical)
    ensures fs.winsect == old(fs.winsect) || InFirstFat(fs.geo, fs.winsect)
    ensures clst != 0 && (!InTable(fs.fat, clst) || old(fs.fat)[clst] < 2) ==> ncl == 1
    ensures clst != 0 && InTable(fs.fat, clst) && 2 <= old(fs.fat)[clst] < |fs.fat| ==> ncl == old(fs.fat)[clst]
    ensures clst == 0 || (InTable(fs.fat, clst) && old(fs.fat)[clst] >= |fs.fat|) ==>
              FirstFree(old(fs.fat), if clst != 0 then clst else if 1 <= old(fs.lastClust) < |fs.fat| then
                        old(fs.lastClust) else 1, ncl)
    ensures Allocates(old(fs.fat), clst, ncl) ==>
              var fat := old(fs.fat);
              var h := if clst != 0 then clst else if 1 <= old(fs.lastClust) < |fat| then old(fs.lastClust) else 1;
              && 2 <= ncl < |fat| && fat[ncl] == 0
              && forall c: nat | 2 <= c < |fat| && (if ncl > h then h < c < ncl else h < c || c < ncl) :: fat[c] > 1
    ensures Allocates(old(fs.fat), clst, ncl) ==>
              && fs.fat == Linked(old(fs.fat), clst, ncl, EndMark(fs.geo.fsType))
              && fs.lastClust == ncl
              && (fs.freeClust == if old(fs.freeClust) == UNKNOWN then UNKNOWN
                 else (old(fs.freeClust) - 1) % 0x1_0000_0000)
              && (old(fs.freeClust) != UNKNOWN ==> fs.fsiDirty)
    ensures !Allocates(old(fs.fat), clst, ncl) ==>
              fs.fat == old(fs.fat) && fs.lastClust == old(fs.lastClust) && fs.freeClust == old(fs.freeClust)
  {
    hide Fatfs.Valid, SameOutsideFats, PassedOver, SearchOrder;
    SameOutsideRefl(fs.geo, fs.logical);
    var scl;
    if clst == 0 {
      scl := fs.lastClust;
      if scl == 0 || scl >= fs.geo.nFatent {
        scl := 1;
      }
    } else {
      var cs := GetFat(fs, clst);
      if cs < 2 {
        return 1;
      }
      if cs < fs.geo.nFatent {
        return cs;
      }
      scl := clst;
    }
    ncl := FindFree(fs, scl);
    if ncl < 2 {
      return;
    }
    LinkCluster(fs, clst, ncl);
    fs.lastClust := ncl;
    if fs.freeClust != UNKNOWN {
      fs.freeClust := (fs.freeClust - 1) % 0x1_0000_0000;
      fs.fsiDirty := true;
    }
  }

  /** Marks `ncl` the last link and hangs it behind `clst` unless that is 0. Both numbers are in range and
      the drive answers, so neither put_fat fails. */
  method LinkCluster(fs: Fatfs, clst: nat, ncl: nat)
    requires fs.Valid() && InTable(fs.fat, ncl) && (clst == 0 || InTable(fs.fat, clst))
    modifies fs`disk, fs`logical, fs`fat, fs`wflag, fs`winsect, fs.win
    ensures fs.Valid()
    ensures SameOutsideFats(fs.geo, old(fs.logical), fs.logical)
    ensures InFirstFat(fs.geo, fs.winsect)
    ensures fs.fat == Linked(old(fs.fat), clst, ncl, EndMark(fs.geo.fsType))
  {
    hide Fatfs.Valid, SameOutsideFats;
    EndMarkStored(fs.geo.fsType, ncl);
    var res := PutFat(fs, ncl, 0x0FFF_FFFF);
    ghost var logical := fs.logical;
    if clst != 0 {
      res := PutFat(fs, clst, ncl);
      SameOutsideTrans(fs.geo, old(fs.logical), logical, fs.logical);
    }
  }

  lemma EndMarkStored(t: FatType, c: nat)
    ensures 0x0FFF_FFFF % (EndMark(t) + 1) == EndMark(t)
    ensures c <= EndMark(t) ==> c % (EndMark(t) + 1) == c
  {
  }

  /** `ncl` answers a request that took a free cluster. */
  ghost predicate Allocates(fat: seq<nat>, clst: nat, ncl: nat) {
    ncl >= 2 && (clst == 0 || (InTable(fat, clst) && fat[clst] >= |fat|))
  }

  /** The search loop of create_chain. */
  method FindFree(fs: Fatfs, scl: nat) returns (ncl: nat)
    requires fs.Valid() && 1 <= scl < |fs.fat|
    modifies fs`disk, fs`wflag, fs`winsect, fs.win
    ensures fs.Valid()
    ensures fs.winsect == old(fs.winsect) || InFirstFat(fs.geo, fs.winsect)
    ensures FirstFree(fs.fat, scl, ncl)
  {
    hide Fatfs.Valid;
    ncl := scl;
    ghost var visited := 0;
    while true
      invariant fs.Valid()
      invariant fs.winsect == old(fs.winsect) || InFirstFat(fs.geo, fs.winsect)
      invariant (ncl == scl && visited == 0)
                || (InTable(fs.fat, ncl) && ncl != scl && visited == SearchOrder(|fs.fat|, scl, ncl) + 1)
      invariant PassedOver(fs.fat, scl, visited)
      decreases |fs.fat| - visited
    {
      ncl := ncl + 1;
      if ncl >= fs.geo.nFatent {
        ncl := 2;
        if ncl > scl {
          return 0;
        }
      }
      var cs := GetFat(fs, ncl);
      PassedMeans(fs.fat, scl, ncl);
      if cs == 0 {
        return;
      }
      if cs == 1 {
        return cs;
      }
      visited := visited + 1;
      if ncl == scl {
        return 0;
      }
    }
  }

  // ----- counting free clusters -----

  /** The full scan of f_getfree. */
  method CountFree(fs: Fatfs) returns (n: nat, res: FResult)
    requires fs.Valid()
    modifies fs`disk, fs`wflag, fs`winsect, fs.win
    ensures fs.Valid()
    ensures fs.winsect == old(fs.winsect) || InFirstFat(fs.geo, fs.winsect)
    ensures fs.geo.fsType == Fat12 ==>
              (res == FrIntErr <==> exists c: nat :: InTable(fs.fat, c) && fs.fat[c] == 1)
    ensures fs.geo.fsType == Fat12 && res == FrOk ==> n == FreeCount(fs.fat)
    ensures fs.geo.fsType != Fat12 ==> res == FrOk && n == Zeros(fs.fat, 0, |fs.fat|)
  {
    if fs.geo.fsType == Fat12 {
      n, res := CountFree12(fs);
    } else {
      n := CountFreeSectors(fs);
      res := FrOk;
    }
  }

  method CountFree12(fs: Fatfs) returns (n: nat, res: FResult)
    requires fs.Valid()
    modifies fs`disk, fs`wflag, fs`winsect, fs.win
    ensures fs.Valid()
    ensures fs.winsect == old(fs.winsect) || InFirstFat(fs.geo, fs.winsect)
    ensures res == FrOk || res == FrIntErr
    ensures res == FrIntErr <==> exists c: nat :: InTable(fs.fat, c) && fs.fat[c] == 1
    ensures res == FrOk ==> n == FreeCount(fs.fat)
  {
    hide Fatfs.Valid;
    n, res := 0, FrOk;
    var clst := 2;
    while clst < fs.geo.nFatent
      invariant fs.Valid() && 2 <= clst <= fs.geo.nFatent
      invariant fs.winsect == old(fs.winsect) || InFirstFat(fs.geo, fs.winsect)
      invariant res == FrOk && n == Zeros(fs.fat, 2, clst)
      invariant forall c: nat | InTable(fs.fat, c) && c < clst :: fs.fat[c] != 1
    {
      var stat := GetFat(fs, clst);
      if stat == 1 {
        res := FrIntErr;
        break;
      }
      if stat == 0 {
        n := n + 1;
      }
      clst := clst + 1;
    }
  }

  /** Whether the FAT16 or FAT32 entry at offset `p` of the window is zero. */
  method EntryIsFree(fs: Fatfs, ghost c: nat, p: nat) returns (free: bool)
    requires fs.Valid() && c < fs.geo.nFatent && fs.geo.fsType != Fat12
    requires fs.winsect == fs.geo.fatbase + EntryOffset(fs.geo.fsType, c) / 512
    requires p == EntryOffset(fs.geo.fsType, c) % 512
    ensures free <==> fs.fat[c] == 0
  {
    hide Fatfs.Valid, LdWord, LdDword;
    WindowShowsEntry(fs, c);
    if fs.geo.fsType == Fat16 {
      free := LdWord(fs.win[..], p) == 0;
    } else {
      free := LdDword(fs.win[..], p) % 0x1000_0000 == 0;
    }
  }

  /** The scan is about to look at entry `c`, `i` bytes before the start of sector `sect`. */
  predicate ScanAt(g: Geo, c: nat, sect: nat, i: nat) {
    g.fatbase <= sect && i <= 512 && EntryOffset(g.fsType, c) + i == (sect - g.fatbase) * 512
  }

  lemma ScanSector(g: Geo, c: nat, sect: nat)
    requires ScanAt(g, c, sect, 0) && c < g.nFatent && FatBytesNeeded(g.fsType, g.nFatent) <= g.fsize * 512
    ensures InFirstFat(g, sect) && ScanAt(g, c, sect + 1, 512)
  {
    EntryInside(g.fsType, g.nFatent, c);
  }

  lemma ScanEntry(g: Geo, c: nat, sect: nat, i: nat)
    requires ScanAt(g, c, sect, i) && i > 0 && g.fsType != Fat12
    ensures sect - 1 == g.fatbase + EntryOffset(g.fsType, c) / 512
    ensures EntryOffset(g.fsType, c) % 512 == 512 - i
    ensures i >= EntrySize(g.fsType) && ScanAt(g, c + 1, sect, i - EntrySize(g.fsType))
  {
    EntryAligned(g.fsType, c);
  }

  /** The sector-wise scan of a FAT16 or FAT32 table; it includes the two reserved entries. */
  method CountFreeSectors(fs: Fatfs) returns (n: nat)
    requires fs.Valid() && fs.geo.fsType != Fat12
    modifies fs`disk, fs`wflag, fs`winsect, fs.win
    ensures fs.Valid()
    ensures fs.winsect == old(fs.winsect) || InFirstFat(fs.geo, fs.winsect)
    ensures n == Zeros(fs.fat, 0, |fs.fat|)
  {
    hide Fatfs.Valid, ScanAt, EntryOffset;
    var t := fs.geo.fsType;
    var clst: nat := fs.geo.nFatent;
    var sect: nat := fs.geo.fatbase;
    var i: nat, p: nat := 0, 0;
    n := 0;
    ScanStart(fs.geo);
    while clst > 0
      invariant fs.Valid() && clst <= fs.geo.nFatent
      invariant fs.winsect == old(fs.winsect) || InFirstFat(fs.geo, fs.winsect)
      invariant ScanAt(fs.geo, fs.geo.nFatent - clst, sect, i)
      invariant i > 0 ==> fs.winsect == sect - 1 && p == 512 - i
      invariant n == Zeros(fs.fat, 0, fs.geo.nFatent - clst)
    {
      ghost var c := fs.geo.nFatent - clst;
      if i == 0 {
        ScanSector(fs.geo, c, sect);
        MoveWindow(fs, sect);
        sect := sect + 1;
        p, i := 0, 512;
      }
      ScanEntry(fs.geo, c, sect, i);
      var free := EntryIsFree(fs, c, p);
      if free {
        n := n + 1;
      }
      p, i := p + EntrySize(t), i - EntrySize(t);
      clst := clst - 1;
    }
  }

  lemma ScanStart(g: Geo)
    ensures ScanAt(g, 0, g.fatbase, 0)
  {
  }

  /** f_getfree: the cached count when it can be one, else a scan whose result becomes the cached count. */
  method GetFree(fs: Fatfs) returns (n: nat, res: FResult)
    requires fs.Valid()
    modifies fs`disk, fs`wflag, fs`winsect, fs`freeClust, fs`fsiDirty, fs.win
    ensures fs.Valid() && fs.freeClust == n
    ensures fs.winsect == old(fs.winsect) || InFirstFat(fs.geo, fs.winsect)
    ensures old(fs.freeClust) <= |fs.fat| - 2 ==> res == FrOk && n == old(fs.freeClust)
    ensures old(fs.freeClust) > |fs.fat| - 2 && fs.geo.fsType == Fat12 && res == FrOk ==> n == FreeCount(fs.fat)
    ensures old(fs.freeClust) > |fs.fat| - 2 && fs.geo.fsType == Fat12 ==>
              (res == FrIntErr <==> exists c: nat :: InTable(fs.fat, c) && fs.fat[c] == 1)
    ensures old(fs.freeClust) > |fs.fat| - 2 && fs.geo.fsType != Fat12 ==>
              res == FrOk
              && n == Zeros(fs.fat, 0, |fs.fat|)
  {
    hide Fatfs.Valid;
    if fs.freeClust <= fs.geo.nFatent - 2 {
      n, res := fs.freeClust, FrOk;
    } else {
      n, res := CountFree(fs);
      fs.freeClust := n;
      fs.fsiDirty := true;
    }
  }

  /** The sector-wise scan gives the number of free clusters exactly when neither reserved entry is zero; of a full
      table with a zero entry 0 it reports a free cluster. */
  lemma SectorScanExact(fat: seq<nat>)
    requires |fat| >= 2
    ensures Zeros(fat, 0, |fat|) == FreeCount(fat) <==> fat[0] != 0 && fat[1] != 0
    ensures var none := [0, 0x0FFF_FFFF, 0x0FFF_FFFF]; FreeCount(none) == 0 && Zeros(none, 0, 3) == 1
  {
    ZerosSplit(fat, 0, 2, |fat|);
    assert Zeros(fat, 0, 2) == Zeros(fat, 0, 1) + if fat[1] == 0 then 1 else 0;
    var none := [0, 0x0FFF_FFFF, 0x0FFF_FFFF];
    ZerosSplit(none, 0, 1, 3);
    ZerosNone(none, 1, 3);
    ZerosNone(none, 2, 3);
  }
}
