/** The file system object: the drive it is bound to and the one-sector access window in front of it. */
module Volume {
  import opened Bytes
  import opened Geometry
  import opened FatEntries

  /** The FAT on drive `d` as numbers. */
  function TableOf(g: Geo, d: seq<Sector>): (fat: seq<nat>)
    requires FatGeo(g, |d|)
    ensures |fat| == g.nFatent
  {
    Table(g.fsType, g.nFatent, FatBytes(g, d))
  }

  class Fatfs {
    var geo: Geo
    var disk: seq<Sector>   // the physical drive
    ghost var fat: seq<nat>         // the FAT of the logical drive as numbers
    ghost var logical: seq<Sector>  // the drive as the program sees it: the window laid over the sectors
    const win: array<byte>  // access window
    var winsect: nat        // sector appearing in the window
    var wflag: bool         // the window is dirty
    var lastClust: dword    // last allocated cluster
    var freeClust: nat      // number of free clusters, 0xFFFFFFFF when unknown
    var fsiDirty: bool      // bit 0 of fsi_flag: FSINFO must be written back
    var fsiDisabled: bool   // bit 7 of fsi_flag: there is no FSINFO

    constructor (drive: seq<Sector>)
      ensures disk == drive && fresh(win) && win.Length == 512
      ensures !wflag && winsect == 0xFFFF_FFFF
    {
      disk, logical, fat := drive, drive, [];
      win := new byte[512](_ => 0);
      winsect, wflag := 0xFFFF_FFFF, false;
      geo := Geo(Fat12, 1, 1, 16, 3, 1, 0, 1, 2, 3);
      lastClust, freeClust := 0xFFFF_FFFF, 0xFFFF_FFFF;
      fsiDirty, fsiDisabled := false, true;
    }

    /** The invariant of the window: the logical drive is the window laid over the physical one, a clean
        window shows its sector, and the FAT copies agree logically. */
    ghost predicate Valid()
      reads this`geo, this`disk, this`fat, this`logical, this`winsect, this`wflag, win
      ensures Valid() ==> win.Length == 512 && |logical| == |disk| && winsect < |disk|
      ensures Valid() ==> FatGeo(geo, |disk|) && |fat| == geo.nFatent
    {
      && win.Length == 512
      && |logical| == |disk|
      && FatGeo(geo, |disk|)
      && winsect < |disk|
      && !InSecondFat(geo, winsect)
      && logical == Overlay(geo, disk, winsect, win[..])
      && Mirrored(geo, logical)
      && (!wflag ==> logical == disk)
      && fat == TableOf(geo, logical)
    }
  }

  /** disk_write of one sector held in `fs.win`. */
  method DiskWriteWin(fs: Fatfs, s: nat)
    requires fs.win.Length == 512 && s < |fs.disk|
    modifies fs`disk
    ensures fs.disk == old(fs.disk)[s := fs.win[..]]
  {
    fs.disk := fs.disk[s := fs.win[..]];
  }

  /** disk_read of one sector into `fs.win`. */
  method DiskReadWin(fs: Fatfs, s: nat)
    requires fs.win.Length == 512 && s < |fs.disk|
    modifies fs.win
    ensures fs.win[..] == fs.disk[s]
  {
    forall i | 0 <= i < 512 {
      fs.win[i] := fs.disk[s][i];
    }
  }

  /** Writes a dirty window back, to every FAT copy when it holds a FAT sector. */
  method SyncWindow(fs: Fatfs)
    requires fs.Valid()
    modifies fs`disk, fs`wflag
    ensures fs.Valid() && !fs.wflag
    ensures fs.disk == fs.logical
  {
    OverlayTwice(fs.geo, fs.disk, fs.winsect, fs.win[..]);
    if fs.wflag {
      var wsect := fs.winsect;
      DiskWriteWin(fs, wsect);
      fs.wflag := false;
      if InFirstFat(fs.geo, wsect) {
        var nf := fs.geo.nFats;
        while nf >= 2
          modifies fs`disk
          invariant nf <= fs.geo.nFats
          invariant wsect == fs.winsect + (fs.geo.nFats - nf) * fs.geo.fsize
          invariant fs.disk == if nf < 2 then Overlay(fs.geo, old(fs.disk), fs.winsect, fs.win[..])
                    else old(fs.disk)[fs.winsect := fs.win[..]]
        {
          wsect := wsect + fs.geo.fsize;
          DiskWriteWin(fs, wsect);
          nf := nf - 1;
        }
      }
    }
  }

  /** Makes `sector` appear in the window. */
  method MoveWindow(fs: Fatfs, sector: nat)
    requires fs.Valid()
    requires sector < |fs.disk| && !InSecondFat(fs.geo, sector)
    modifies fs`disk, fs`wflag, fs`winsect, fs.win
    ensures fs.Valid()
    ensures fs.winsect == sector && fs.win[..] == fs.logical[sector]
    ensures sector == old(fs.winsect) ==> fs.wflag == old(fs.wflag) && fs.disk == old(fs.disk)
    ensures sector != old(fs.winsect) ==> !fs.wflag && fs.disk == old(fs.logical)
  {
    if sector != fs.winsect {
      SyncWindow(fs);
      DiskReadWin(fs, sector);
      fs.winsect := sector;
      assert fs.logical == fs.disk;
    }
  }

  // ----- sectors that bypass the window -----

  /** The window hides the drive in its own sector and its FAT copy only. */
  lemma WindowHidesOneSector(fs: Fatfs, s: nat)
    requires fs.Valid() && s < |fs.disk| && OutsideFats(fs.geo, s) && s != fs.winsect
    ensures fs.disk[s] == fs.logical[s]
  {
  }

  /** disk_write of one sector outside the FAT copies that the window does not show. */
  method DiskWrite(fs: Fatfs, s: nat, v: Sector)
    requires fs.Valid() && s < |fs.disk| && OutsideFats(fs.geo, s) && s != fs.winsect
    modifies fs`disk, fs`logical
    ensures fs.Valid()
    ensures fs.disk == old(fs.disk)[s := v] && fs.logical == old(fs.logical)[s := v]
  {
    fs.disk := fs.disk[s := v];
    fs.logical := fs.logical[s := v];
    OverlayBesides(fs.geo, old(fs.disk), fs.winsect, fs.win[..], s, v);
  }

  lemma OverlayBesides(g: Geo, d: seq<Sector>, s: nat, w: Sector, x: nat, v: Sector)
    requires FatGeo(g, |d|) && s < |d| && x < |d| && OutsideFats(g, x) && x != s
    requires Mirrored(g, Overlay(g, d, s, w))
    ensures Overlay(g, d[x := v], s, w) == Overlay(g, d, s, w)[x := v]
    ensures Mirrored(g, Overlay(g, d[x := v], s, w))
    ensures TableOf(g, Overlay(g, d[x := v], s, w)) == TableOf(g, Overlay(g, d, s, w))
  {
    hide Table;
    var r := Overlay(g, d, s, w);
    assert Overlay(g, d[x := v], s, w) == r[x := v];
    assert FatBytes(g, r[x := v]) == FatBytes(g, r);
  }

  /** Bytes stored through a pointer into a window that shows a sector outside the FAT copies. */
  method StoreWin(fs: Fatfs, o: nat, bs: seq<byte>)
    requires fs.Valid() && OutsideFats(fs.geo, fs.winsect) && o + |bs| <= 512
    modifies fs.win, fs`wflag, fs`logical
    ensures fs.Valid() && fs.wflag
    ensures fs.win[..] == Splice(old(fs.win[..]), o, bs)
    ensures fs.logical == old(fs.logical)[fs.winsect := fs.win[..]]
  {
    ghost var w := fs.win[..];
    forall i | o <= i < o + |bs| {
      fs.win[i] := bs[i - o];
    }
    fs.wflag := true;
    fs.logical := fs.logical[fs.winsect := fs.win[..]];
    assert fs.win[..] == Splice(w, o, bs);
    OverlayOutside(fs.geo, fs.disk, fs.winsect, w, fs.win[..]);
  }

  /** The invariant as it was when the window held `w`. */
  ghost predicate ValidWith(fs: Fatfs, w: Sector)
    reads fs`geo, fs`disk, fs`fat, fs`logical, fs`winsect, fs`wflag
  {
    && |fs.logical| == |fs.disk| && FatGeo(fs.geo, |fs.disk|) && fs.winsect < |fs.disk|
       && !InSecondFat(fs.geo, fs.winsect)
    && fs.logical == Overlay(fs.geo, fs.disk, fs.winsect, w) && Mirrored(fs.geo, fs.logical)
       && (!fs.wflag ==> fs.logical == fs.disk)
    && fs.fat == TableOf(fs.geo, fs.logical)
  }

  lemma Remembered(fs: Fatfs)
    requires fs.Valid()
    ensures ValidWith(fs, fs.win[..])
  {
  }

  /** A window outside the FAT copies that was written into is marked dirty. */
  method MarkWindow(fs: Fatfs, ghost w: Sector)
    requires ValidWith(fs, w) && fs.win.Length == 512 && OutsideFats(fs.geo, fs.winsect)
    modifies fs`wflag, fs`logical
    ensures fs.Valid() && fs.wflag
    ensures fs.logical == old(fs.logical)[fs.winsect := fs.win[..]]
  {
    fs.wflag := true;
    fs.logical := fs.logical[fs.winsect := fs.win[..]];
    OverlayOutside(fs.geo, fs.disk, fs.winsect, w, fs.win[..]);
  }

  lemma OverlayOutside(g: Geo, d: seq<Sector>, s: nat, w: Sector, w': Sector)
    requires FatGeo(g, |d|) && s < |d| && OutsideFats(g, s)
    requires Mirrored(g, Overlay(g, d, s, w))
    ensures Overlay(g, d, s, w') == Overlay(g, d, s, w)[s := w']
    ensures Mirrored(g, Overlay(g, d, s, w'))
    ensures TableOf(g, Overlay(g, d, s, w')) == TableOf(g, Overlay(g, d, s, w))
  {
    hide Table;
    assert FatBytes(g, Overlay(g, d, s, w')) == FatBytes(g, Overlay(g, d, s, w));
  }

  // ----- FSINFO -----

  /** The FSINFO sector that sync_fs writes. */
  function FsInfo(freeClust: nat, lastClust: nat): Sector
    requires freeClust < 0x1_0000_0000 && lastClust < 0x1_0000_0000
  {
    StDword(0x41615252) + seq(480, _ => 0) + StDword(0x61417272) + StDword(freeClust) + StDword(lastClust)
    + seq(14, _ => 0) + StWord(0xAA55)
  }

  /** Its signatures are where a mount looks for them, its counts read back. */
  lemma FsInfoFields(freeClust: nat, lastClust: nat)
    requires freeClust < 0x1_0000_0000 && lastClust < 0x1_0000_0000
    ensures var s := FsInfo(freeClust, lastClust);
            && LdDword(s, 0) == 0x41615252 && LdDword(s, 484) == 0x61417272 && LdWord(s, 510) == 0xAA55
            && LdDword(s, 488) == freeClust && LdDword(s, 492) == lastClust
  {
    hide LdWord, LdDword, StWord, StDword;
    var s := FsInfo(freeClust, lastClust);
    assert s[0..4] == StDword(0x41615252) && s[484..488] == StDword(0x61417272);
    assert s[488..492] == StDword(freeClust) && s[492..496] == StDword(lastClust);
    assert s[510..512] == StWord(0xAA55);
    LdSlice(s, 0);
    LdSlice(s, 484);
    LdSlice(s, 488);
    LdSlice(s, 492);
    LdSlice(s, 510);
  }

  /** The second double word of FSINFO is zero. */
  lemma FsInfoZero(freeClust: nat, lastClust: nat)
    requires freeClust < 0x1_0000_0000 && lastClust < 0x1_0000_0000
    ensures LdDword(FsInfo(freeClust, lastClust), 4) == 0
  {
    hide StWord, StDword;
    var s := FsInfo(freeClust, lastClust);
    assert s[4] == 0 && s[5] == 0 && s[6] == 0 && s[7] == 0;
  }

  /** sync_fs is about to write the FSINFO sector. */
  predicate WritesFsInfo(fs: Fatfs)
    reads fs`geo, fs`fsiDirty, fs`fsiDisabled
  {
    fs.geo.fsType == Fat32 && fs.fsiDirty && !fs.fsiDisabled
  }

  /** The FSINFO sector is the first FAT sector, on a FAT32 volume with one reserved sector, and is about to be
      written. */
  predicate FsInfoClashes(fs: Fatfs)
    reads fs`geo, fs`fsiDirty, fs`fsiDisabled
  {
    WritesFsInfo(fs) && fs.geo.volbase + 1 == fs.geo.fatbase
  }

  /** The drive `l` after FSINFO was written to it if it had to be. */
  function WithFsInfo(g: Geo, l: seq<Sector>, info: bool, freeClust: nat, lastClust: nat): (r: seq<Sector>)
    requires g.volbase + 1 < |l| && freeClust < 0x1_0000_0000 && lastClust < 0x1_0000_0000
    ensures |r| == |l|
  {
    if info then l[g.volbase + 1 := FsInfo(freeClust, lastClust)] else l
  }

  /** sync_fs: the window is written back, then FSINFO when it changed; the drive holds everything after it. The volume
      stays what it was unless FSINFO lies in the FAT, and not otherwise. */
  method SyncFs(fs: Fatfs)
    requires fs.Valid() && fs.freeClust < 0x1_0000_0000
    modifies fs`disk, fs`logical, fs`wflag, fs`winsect, fs`fsiDirty, fs.win
    ensures fs.geo.volbase + 1 < |fs.disk| && !fs.wflag && fs.disk == fs.logical && !WritesFsInfo(fs)
    ensures fs.logical == WithFsInfo(fs.geo, old(fs.logical), old(WritesFsInfo(fs)), fs.freeClust, fs.lastClust)
    ensures fs.winsect == if old(WritesFsInfo(fs)) then fs.geo.volbase + 1 else old(fs.winsect)
    ensures !old(FsInfoClashes(fs)) ==> fs.Valid()
    ensures fs.fat[1] != 0 ==> (fs.Valid() <==> !old(FsInfoClashes(fs)))
  {
    hide Fatfs.Valid;
    InfoPlace(fs);
    SyncWindow(fs);
    if WritesFsInfo(fs) {
      WriteFsInfo(fs);
      fs.fsiDirty := false;
    }
  }

  lemma InfoPlace(fs: Fatfs)
    requires fs.Valid()
    ensures fs.geo.volbase + 1 <= fs.geo.fatbase && fs.geo.volbase + 1 < |fs.disk| && |fs.fat| >= 3
  {
    hide Mirrored, Overlay, TableOf;
  }

  method WriteFsInfo(fs: Fatfs)
    requires fs.Valid() && !fs.wflag && fs.freeClust < 0x1_0000_0000 && WritesFsInfo(fs) && fs.disk == fs.logical
    modifies fs`disk, fs`logical, fs`winsect, fs.win
    ensures fs.geo.volbase + 1 < |fs.disk| == |old(fs.disk)| && fs.disk == fs.logical
            && fs.winsect == fs.geo.volbase + 1
    ensures fs.logical == old(fs.logical)[fs.geo.volbase + 1 := FsInfo(fs.freeClust, fs.lastClust)]
    ensures fs.geo.volbase + 1 < fs.geo.fatbase ==> fs.Valid()
    ensures fs.geo.volbase + 1 == fs.geo.fatbase && fs.fat[1] != 0 ==> !fs.Valid()
  {
    hide FsInfo, Overlay, Mirrored, TableOf;
    var info := FsInfo(fs.freeClust, fs.lastClust);
    forall i | 0 <= i < 512 {
      fs.win[i] := info[i];
    }
    assert fs.win[..] == info;
    fs.winsect := fs.geo.volbase + 1;
    DiskWriteWin(fs, fs.winsect);
    fs.logical := fs.disk;
    if fs.geo.volbase + 1 < fs.geo.fatbase {
      CleanWindow(fs.geo, old(fs.logical), fs.winsect, info);
    } else if fs.fat[1] != 0 {
      FsInfoOverFat(fs.geo, old(fs.logical), fs.freeClust, fs.lastClust);
    }
  }

  lemma CleanWindow(g: Geo, d: seq<Sector>, s: nat, w: Sector)
    requires FatGeo(g, |d|) && s < |d| && OutsideFats(g, s) && Mirrored(g, d)
    ensures Overlay(g, d[s := w], s, w) == d[s := w]
    ensures Mirrored(g, d[s := w]) && TableOf(g, d[s := w]) == TableOf(g, d)
  {
    hide Table;
    assert FatBytes(g, d[s := w]) == FatBytes(g, d);
  }

  /** A sector outside the first FAT copy does not matter to the FAT. */
  lemma TableKept(g: Geo, d: seq<Sector>, s: nat, w: Sector)
    requires FatGeo(g, |d|) && s < |d| && !InFirstFat(g, s)
    ensures TableOf(g, d[s := w]) == TableOf(g, d)
  {
    hide Table;
    assert FatBytes(g, d[s := w]) == FatBytes(g, d);
  }

  /** Writing FSINFO leaves the FAT alone if and only if it lies in front of it: with one reserved sector it is the
      first FAT sector, and its zeros make the second entry of the FAT zero. */
  lemma FsInfoOverFat(g: Geo, d: seq<Sector>, freeClust: nat, lastClust: nat)
    requires FatGeo(g, |d|) && g.fsType == Fat32 && freeClust < 0x1_0000_0000 && lastClust < 0x1_0000_0000
    requires TableOf(g, d)[1] != 0
    ensures TableOf(g, d[g.volbase + 1 := FsInfo(freeClust, lastClust)]) == TableOf(g, d) <==> g.volbase + 1 < g.fatbase
  {
    hide FsInfo;
    var info := FsInfo(freeClust, lastClust);
    if g.volbase + 1 == g.fatbase {
      FsInfoZero(freeClust, lastClust);
      var b := FatBytes(g, d[g.volbase + 1 := info]);
      assert b[4..8] == info[4..8];
      LdSlice(b, 4);
      LdSlice(info, 4);
    } else {
      TableKept(g, d, g.volbase + 1, info);
    }
  }

  lemma FatAfterInfo(g: Geo, d: seq<Sector>, info: bool, freeClust: nat, lastClust: nat)
    requires FatGeo(g, |d|) && g.volbase + 1 < |d| && (info ==> g.fsType == Fat32)
    requires freeClust < 0x1_0000_0000 && lastClust < 0x1_0000_0000
    ensures var clash, d' := info && g.volbase + 1 == g.fatbase, WithFsInfo(g, d, info, freeClust, lastClust);
            && (!clash ==> TableOf(g, d') == TableOf(g, d))
            && (TableOf(g, d)[1] != 0 ==> (TableOf(g, d') == TableOf(g, d) <==> !clash))
  {
    hide TableOf, FsInfo;
    if info {
      if g.volbase + 1 < g.fatbase {
        TableKept(g, d, g.volbase + 1, FsInfo(freeClust, lastClust));
      } else if TableOf(g, d)[1] != 0 {
        FsInfoOverFat(g, d, freeClust, lastClust);
      }
    }
  }
}
