/** f_sync: the buffer and the directory entry of a file written to the drive. */
module FileSync {
  import opened Bytes
  import opened Geometry
  import opened Volume
  import opened Chains
  import opened DataArea
  import opened FileObject
  import opened FileBuffer

  // ----- the directory entry -----

  /** File size in the entry at offset `o`. */
  function EntryFileSize(s: Sector, o: nat): nat
    requires o + 32 <= 512
  {
    LdDword(s, o + 28)
  }

  /** ld_clust: start cluster in the entry at offset `o`. */
  function LdClust(t: FatType, s: Sector, o: nat): nat
    requires o + 32 <= 512
  {
    LdWord(s, o + 26) + if t == Fat32 then LdWord(s, o + 20) * 0x1_0000 else 0
  }

  function WithArchiveBit(a: byte): byte {
    if a as int / 0x20 % 2 == 1 then a else a as int + 0x20
  }

  /** The sector of a directory entry after f_sync stored size, start cluster, archive bit and time in it. */
  function UpdatedEntry(s: Sector, o: nat, fsize: nat, sclust: nat, tm: nat): Sector
    requires o + 32 <= 512
  {
    var s1 := Splice(s, o + 11, [WithArchiveBit(s[o + 11])]);
    var s2 := Splice(s1, o + 28, StDword(fsize));
    var s3 := Splice(s2, o + 26, StWord(sclust));
    var s4 := Splice(s3, o + 20, StWord(sclust / 0x1_0000));
    var s5 := Splice(s4, o + 22, StDword(tm));
    Splice(s5, o + 18, StWord(0))
  }

  /** The stored size and start cluster read back; bytes outside the entry, and its name, are untouched. */
  lemma UpdatedEntryReads(t: FatType, s: Sector, o: nat, fsize: nat, sclust: nat, tm: nat)
    requires o + 32 <= 512 && fsize < 0x1_0000_0000 && sclust < 0x1_0000_0000
    requires t != Fat32 ==> sclust < 0x1_0000
    ensures var s' := UpdatedEntry(s, o, fsize, sclust, tm);
            && EntryFileSize(s', o) == fsize && LdClust(t, s', o) == sclust
            && (forall i | 0 <= i < 512 && !(o + 11 <= i < o + 32) :: s'[i] == s[i])
  {
    hide LdWord, LdDword, UpdatedEntry;
    UpdatedHead(s, o, fsize, sclust, tm);
    UpdatedSizes(s, o, fsize, sclust, tm);
  }

  /** From `s` to `s'` the directory entry at offset `o` was brought up to date: byte 11, the attributes, has the
      archive bit 0x20 now and its other bits as they were; the last access date at 18 is zero, the time at 22, the
      size at 28, and the start cluster in two halves at 26 and 20; everything else stays. */
  ghost predicate EntryStored(s: Sector, s': Sector, o: nat, fsize: nat, sclust: nat, tm: nat)
    requires o + 32 <= 512
  {
    && s'[o + 11] / 0x20 % 2 == 1 && s'[o + 11] % 0x20 == s[o + 11] % 0x20 && s'[o + 11] / 0x40 == s[o + 11] / 0x40
    && (forall i | 0 <= i < 512 && !(o + 11 <= i < o + 32) :: s'[i] == s[i])
    && (forall i | o + 12 <= i < o + 18 :: s'[i] == s[i])
    && LdWord(s', o + 18) == 0 && LdDword(s', o + 22) == tm && LdDword(s', o + 28) == fsize
    && LdWord(s', o + 20) == sclust / 0x1_0000 && LdWord(s', o + 26) == sclust % 0x1_0000
  }

  lemma UpdatedStored(s: Sector, o: nat, fsize: nat, sclust: nat, tm: nat)
    requires o + 32 <= 512 && fsize < 0x1_0000_0000 && sclust < 0x1_0000_0000 && tm < 0x1_0000_0000
    ensures EntryStored(s, UpdatedEntry(s, o, fsize, sclust, tm), o, fsize, sclust, tm)
  {
    hide *;
    UpdatedHead(s, o, fsize, sclust, tm);
    UpdatedTimes(s, o, fsize, sclust, tm);
    UpdatedSizes(s, o, fsize, sclust, tm);
    StoredIs(s, UpdatedEntry(s, o, fsize, sclust, tm), o, fsize, sclust, tm);
  }

  lemma StoredIs(s: Sector, s': Sector, o: nat, fsize: nat, sclust: nat, tm: nat)
    requires o + 32 <= 512
    requires s'[o + 11] / 0x20 % 2 == 1 && s'[o + 11] % 0x20 == s[o + 11] % 0x20
             && s'[o + 11] / 0x40 == s[o + 11] / 0x40
    requires forall i | 0 <= i < 512 && !(o + 11 <= i < o + 32) :: s'[i] == s[i]
    requires forall i | o + 12 <= i < o + 18 :: s'[i] == s[i]
    requires LdWord(s', o + 18) == 0 && LdDword(s', o + 22) == tm && LdDword(s', o + 28) == fsize
    requires LdWord(s', o + 20) == sclust / 0x1_0000 && LdWord(s', o + 26) == sclust % 0x1_0000
    ensures EntryStored(s, s', o, fsize, sclust, tm)
  {
    hide LdWord, LdDword;
  }

  lemma UpdatedHead(s: Sector, o: nat, fsize: nat, sclust: nat, tm: nat)
    requires o + 32 <= 512
    ensures var s' := UpdatedEntry(s, o, fsize, sclust, tm);
            && s'[o + 11] / 0x20 % 2 == 1 && s'[o + 11] % 0x20 == s[o + 11] % 0x20
            && s'[o + 11] / 0x40 == s[o + 11] / 0x40
            && (forall i | 0 <= i < 512 && !(o + 11 <= i < o + 32) :: s'[i] == s[i])
            && (forall i | o + 12 <= i < o + 18 :: s'[i] == s[i])
  {
    ArchiveBit(s[o + 11]);
    hide StWord, StDword, WithArchiveBit, Splice;
  }

  lemma UpdatedTimes(s: Sector, o: nat, fsize: nat, sclust: nat, tm: nat)
    requires o + 32 <= 512 && tm < 0x1_0000_0000
    ensures var s' := UpdatedEntry(s, o, fsize, sclust, tm); LdWord(s', o + 18) == 0 && LdDword(s', o + 22) == tm
  {
    hide LdWord, LdDword, StWord, StDword, WithArchiveBit, Splice;
    var s' := UpdatedEntry(s, o, fsize, sclust, tm);
    assert s'[o + 18..o + 20] == StWord(0) && s'[o + 22..o + 26] == StDword(tm);
    LdSlice(s', o + 18);
    LdSlice(s', o + 22);
  }

  lemma UpdatedSizes(s: Sector, o: nat, fsize: nat, sclust: nat, tm: nat)
    requires o + 32 <= 512 && fsize < 0x1_0000_0000 && sclust < 0x1_0000_0000
    ensures var s' := UpdatedEntry(s, o, fsize, sclust, tm);
            LdDword(s', o + 28) == fsize && LdWord(s', o + 20) == sclust / 0x1_0000
            && LdWord(s', o + 26) == sclust % 0x1_0000
  {
    hide LdWord, LdDword, StWord, StDword, WithArchiveBit, Splice;
    var s' := UpdatedEntry(s, o, fsize, sclust, tm);
    assert s'[o + 28..o + 32] == StDword(fsize);
    assert s'[o + 26..o + 28] == StWord(sclust);
    assert s'[o + 20..o + 22] == StWord(sclust / 0x1_0000);
    LdSlice(s', o + 28);
    LdSlice(s', o + 26);
    LdSlice(s', o + 20);
  }

  lemma ArchiveBit(a: byte)
    ensures var b := WithArchiveBit(a); b / 0x20 % 2 == 1 && b % 0x20 == a % 0x20 && b / 0x40 == a / 0x40
  {
  }

  /** The entry stored field by field through the window. */
  method StoreEntry(fs: Fatfs, o: nat, fsize: nat, sclust: nat, tm: nat)
    requires fs.Valid() && OutsideFats(fs.geo, fs.winsect) && o + 32 <= 512
    modifies fs.win, fs`wflag, fs`logical
    ensures fs.Valid()
    ensures fs.win[..] == UpdatedEntry(old(fs.win[..]), o, fsize, sclust, tm)
    ensures fs.logical == old(fs.logical)[fs.winsect := fs.win[..]]
  {
    hide Fatfs.Valid, Splice, StWord, StDword;
    StoreWin(fs, o + 11, [WithArchiveBit(fs.win[o + 11])]);
    StoreWin(fs, o + 28, StDword(fsize));
    StoreWin(fs, o + 26, StWord(sclust));
    StoreWin(fs, o + 20, StWord(sclust / 0x1_0000));
    StoreWin(fs, o + 22, StDword(tm));
    StoreWin(fs, o + 18, StWord(0));
  }

  /** The drive as f_sync leaves it: entry updated, FSINFO updated when it was pending. */
  ghost function Synced(g: Geo, l: seq<Sector>, dirSect: nat, o: nat, fsize: nat, sclust: nat, tm: nat,
                        info: bool, freeClust: nat, lastClust: nat): seq<Sector>
    requires dirSect < |l| && o + 32 <= 512 && g.volbase + 1 < |l|
    requires freeClust < 0x1_0000_0000 && lastClust < 0x1_0000_0000
  {
    WithFsInfo(g, l[dirSect := UpdatedEntry(l[dirSect], o, fsize, sclust, tm)], info, freeClust, lastClust)
  }

  /** The volume part of f_sync. */
  method SyncEntry(fs: Fatfs, dirSect: nat, o: nat, fsize: nat, sclust: nat, tm: nat)
    requires fs.Valid() && fs.freeClust < 0x1_0000_0000
    requires dirSect < |fs.disk| && OutsideFats(fs.geo, dirSect) && o + 32 <= 512
    modifies fs`disk, fs`logical, fs`wflag, fs`winsect, fs`fsiDirty, fs.win
    ensures fs.geo.volbase + 1 < |fs.disk| == |old(fs.disk)| && fs.disk == fs.logical && !WritesFsInfo(fs)
            && |fs.fat| >= 3
    ensures fs.logical == Synced(fs.geo, old(fs.logical), dirSect, o, fsize, sclust, tm, old(WritesFsInfo(fs)),
            fs.freeClust, fs.lastClust)
    ensures fs.winsect == if old(WritesFsInfo(fs)) then fs.geo.volbase + 1 else dirSect
    ensures !old(FsInfoClashes(fs)) ==> fs.Valid()
    ensures fs.fat[1] != 0 ==> (fs.Valid() <==> !old(FsInfoClashes(fs)))
  {
    hide Fatfs.Valid, UpdatedEntry, FsInfo;
    InfoPlace(fs);
    MoveWindow(fs, dirSect);
    StoreEntry(fs, o, fsize, sclust, tm);
    SyncFs(fs);
  }

  /** A synchronised drive keeps every sector a file can own, and the FAT. */
  lemma SyncedElsewhere(g: Geo, fat: seq<nat>, ch: seq<nat>, l: seq<Sector>, dirSect: nat, o: nat, fsize: nat,
                        sclust: nat, tm: nat,
                        info: bool, freeClust: nat, lastClust: nat)
    requires FatGeo(g, |l|) && DataGeo(g, |l|)
    requires dirSect < |l| && o + 32 <= 512 && freeClust < 0x1_0000_0000 && lastClust < 0x1_0000_0000
    requires OutsideFats(g, dirSect) && !Avail(g, fat, ch, dirSect)
    ensures var l' := Synced(g, l, dirSect, o, fsize, sclust, tm, info, freeClust, lastClust);
            && |l'| == |l|
            && (forall s: nat | s < |l| && Avail(g, fat, ch, s) :: l'[s] == l[s])
            && (info ==> !Avail(g, fat, ch, g.volbase + 1))
            && (info ==> dirSect != g.volbase + 1 ==> l'[dirSect] == UpdatedEntry(l[dirSect], o, fsize, sclust, tm))
            && (!info ==> l'[dirSect] == UpdatedEntry(l[dirSect], o, fsize, sclust, tm))
  {
    hide UpdatedEntry, FsInfo;
  }

  /** A drive on which, beside the file and the FAT, only the file's directory entry and FSINFO changed. */
  ghost predicate EntryOnly(g: Geo, ch: seq<nat>, l: seq<Sector>, l': seq<Sector>, dirSect: nat, o: nat) {
    && |l'| == |l|
    && (forall s: nat | s < |l| && OutsideFats(g, s) && !Owned(g, ch, s) && s != dirSect && s != g.volbase + 1 ::
       l'[s] == l[s])
    && (dirSect < |l| ==> forall i | 0 <= i < 512 && !(o + 11 <= i < o + 32) :: l'[dirSect][i] == l[dirSect][i])
  }

  /** f_sync: afterwards the physical drive alone, without any cache, holds the file: its bytes on its chain, and size
      and start cluster in its directory entry. It holds the chain in the FAT too if and only if FSINFO was not written
      into the FAT. */
  method FSync(fp: Fil, tm: nat) returns (res: FResult)
    requires fp.Sound() && tm < 0x1_0000_0000
    requires fp.dirSect < |fp.fs.disk| && OutsideFats(fp.fs.geo, fp.dirSect) && fp.dirOffset + 32 <= 512
    requires !Avail(fp.fs.geo, fp.fs.fat, fp.chain, fp.dirSect) && fp.dirSect != fp.fs.geo.volbase + 1
    modifies fp.fs`disk, fp.fs`logical, fp.fs`wflag, fp.fs`winsect, fp.fs`fsiDirty, fp.fs.win, fp`dirty, fp`written
    ensures res == FrOk && !fp.written && |fp.fs.disk| == |old(fp.fs.disk)| && |fp.fs.fat| >= 3
    ensures !(old(fp.written) && old(FsInfoClashes(fp.fs))) ==> fp.Sound()
    ensures old(fp.written) ==> OnDrive(fp)
    ensures old(fp.written) ==>
              EntryStored(old(fp.fs.logical)[fp.dirSect], fp.fs.disk[fp.dirSect], fp.dirOffset, |fp.contents|,
                          if fp.chain == [] then 0 else fp.chain[0], tm)
    ensures old(fp.written) && !old(FsInfoClashes(fp.fs)) ==> Durable(fp)
    ensures old(fp.written) && fp.fs.fat[1] != 0 ==> (Durable(fp) <==> !old(FsInfoClashes(fp.fs)))
    ensures EntryOnly(fp.fs.geo, fp.chain, old(fp.fs.logical), fp.fs.logical, fp.dirSect, fp.dirOffset)
  {
    hide Fil.Stable, FatGeo, DataGeo, ChainOk, ChainOn, Avail, CursorAt, UpdatedEntry, WritesFsInfo, TableOf, Holds;
    hide EntryFileSize, LdClust, Elsewhere, EntryOnly, FsInfoClashes, EntryStored;
    res := FrOk;
    EntryOnlyRefl(fp.fs.geo, fp.chain, fp.fs.logical, fp.dirSect, fp.dirOffset);
    if fp.written {
      FlushBuffer(fp);
      ghost var l := fp.fs.logical;
      if Owned(fp.fs.geo, fp.chain, fp.dirSect) {
        OwnedAvail(fp.fs.geo, fp.fs.fat, fp.chain, fp.sclust, fp.dirSect);
      }
      StartSmall(fp);
      WriteEntry(fp, tm);
      UpdatedEntryReads(fp.fs.geo.fsType, l[fp.dirSect], fp.dirOffset, fp.fsize, fp.sclust, tm);
      UpdatedStored(l[fp.dirSect], fp.dirOffset, fp.fsize, fp.sclust, tm);
      ElsewhereAt(fp.fs.geo, fp.chain, old(fp.fs.logical), l, fp.dirSect);
      EntryOnlyAlong(fp.fs.geo, fp.chain, old(fp.fs.logical), l, fp.fs.logical, fp.dirSect, fp.dirOffset);
      fp.written := false;
    }
  }

  lemma ElsewhereAt(g: Geo, ch: seq<nat>, l: seq<Sector>, l': seq<Sector>, s: nat)
    requires Elsewhere(g, ch, l, l') && s < |l| && OutsideFats(g, s) && !Owned(g, ch, s)
    ensures |l'| == |l| && l'[s] == l[s]
  {
    hide Owned;
  }

  lemma StartSmall(fp: Fil)
    requires fp.Stable()
    ensures fp.sclust < 0x1000_0000 && (fp.fs.geo.fsType != Fat32 ==> fp.sclust < 0x1_0000)
    ensures fp.sclust == if fp.chain == [] then 0 else fp.chain[0]
  {
    hide Fatfs.Valid, DataGeo, Holds, BufferOk, Avail;
    if fp.chain != [] {
      assert InTable(fp.fs.fat, fp.chain[0]);
    }
  }

  /** The directory entry written by a file whose buffer is clean; the drive has everything then, but for a FAT that
      FSINFO was written into. */
  method WriteEntry(fp: Fil, tm: nat)
    requires fp.Stable() && !fp.dirty && !fp.growing && fp.fsize < 0x1_0000_0000
    requires fp.dirSect < |fp.fs.disk| && OutsideFats(fp.fs.geo, fp.dirSect) && fp.dirOffset + 32 <= 512
    requires !Avail(fp.fs.geo, fp.fs.fat, fp.chain, fp.dirSect) && fp.dirSect != fp.fs.geo.volbase + 1
    modifies fp.fs`disk, fp.fs`logical, fp.fs`wflag, fp.fs`winsect, fp.fs`fsiDirty, fp.fs.win
    ensures |fp.fs.disk| == |old(fp.fs.disk)| && FatGeo(fp.fs.geo, |fp.fs.disk|) && |fp.fs.fat| >= 3
    ensures !old(FsInfoClashes(fp.fs)) ==> fp.Stable() && TableOf(fp.fs.geo, fp.fs.disk) == fp.fs.fat
    ensures fp.fs.fat[1] != 0 ==> (TableOf(fp.fs.geo, fp.fs.disk) == fp.fs.fat <==> !old(FsInfoClashes(fp.fs)))
    ensures Holds(fp.fs.geo, fp.chain, fp.fs.disk, fp.contents)
    ensures fp.fs.disk[fp.dirSect] == UpdatedEntry(old(fp.fs.logical)[fp.dirSect], fp.dirOffset, fp.fsize, fp.sclust,
            tm)
    ensures EntryOnly(fp.fs.geo, fp.chain, old(fp.fs.logical), fp.fs.logical, fp.dirSect, fp.dirOffset)
  {
    hide Fatfs.Valid, EntryOnly, FatGeo, DataGeo, ChainOk, ChainOn, Avail, BufferOk, Holds, UpdatedEntry, Synced;
    hide WritesFsInfo, TableOf;
    hide FsInfoClashes;
    var fs := fp.fs;
    ghost var d, l, info := fs.disk, fs.logical, WritesFsInfo(fs);
    AvailAgrees(fs, fp.chain);
    StartSmall(fp);
    ClashMeans(fs, fp.dirSect, fp.dirOffset, fp.fsize, fp.sclust, tm);
    SyncEntry(fs, fp.dirSect, fp.dirOffset, fp.fsize, fp.sclust, tm);
    SyncedElsewhere(fs.geo, fs.fat, fp.chain, l, fp.dirSect, fp.dirOffset, fp.fsize, fp.sclust, tm, info,
      fs.freeClust, fs.lastClust);
    DriveStep(fs.geo, fs.fat, fp.chain, fp.sclust, d, fs.disk, fp.buf[..], fp.dsect, fp.dirty, fp.growing, fp.contents);
    SyncedEntryOnly(fs.geo, fp.chain, l, fp.dirSect, fp.dirOffset, fp.fsize, fp.sclust, tm, info, fs.freeClust,
      fs.lastClust);
  }

  /** What the clash means for the FAT on the synchronised drive. */
  lemma ClashMeans(fs: Fatfs, dirSect: nat, o: nat, fsize: nat, sclust: nat, tm: nat)
    requires fs.Valid() && fs.freeClust < 0x1_0000_0000 && dirSect < |fs.logical| && OutsideFats(fs.geo, dirSect)
             && o + 32 <= 512
    ensures fs.geo.volbase + 1 < |fs.logical| && |fs.fat| >= 3
    ensures var l' := Synced(fs.geo, fs.logical, dirSect, o, fsize, sclust, tm, WritesFsInfo(fs), fs.freeClust,
            fs.lastClust);
            && |l'| == |fs.logical|
            && (!FsInfoClashes(fs) ==> TableOf(fs.geo, l') == fs.fat)
            && (fs.fat[1] != 0 ==> (TableOf(fs.geo, l') == fs.fat <==> !FsInfoClashes(fs)))
  {
    InfoPlace(fs);
    FatShown(fs);
    hide UpdatedEntry, TableOf, Fatfs.Valid, WithFsInfo;
    TableKept(fs.geo, fs.logical, dirSect, UpdatedEntry(fs.logical[dirSect], o, fsize, sclust, tm));
    FatAfterInfo(fs.geo, fs.logical[dirSect := UpdatedEntry(fs.logical[dirSect], o, fsize, sclust, tm)],
      WritesFsInfo(fs),
                 fs.freeClust, fs.lastClust);
  }

  lemma FatShown(fs: Fatfs)
    requires fs.Valid()
    ensures fs.fat == TableOf(fs.geo, fs.logical)
  {
  }

  lemma SyncedEntryOnly(g: Geo, ch: seq<nat>, l: seq<Sector>, dirSect: nat, o: nat, fsize: nat, sclust: nat, tm: nat,
                        info: bool, freeClust: nat, lastClust: nat)
    requires dirSect < |l| && o + 32 <= 512 && freeClust < 0x1_0000_0000 && lastClust < 0x1_0000_0000
    requires FatGeo(g, |l|) && dirSect != g.volbase + 1 && fsize < 0x1_0000_0000 && sclust < 0x1_0000_0000
    ensures EntryOnly(g, ch, l, Synced(g, l, dirSect, o, fsize, sclust, tm, info, freeClust, lastClust), dirSect, o)
  {
    hide FsInfo, UpdatedEntry;
    UpdatedEntryReads(Fat32, l[dirSect], o, fsize, sclust, tm);
  }

  lemma EntryOnlyRefl(g: Geo, ch: seq<nat>, l: seq<Sector>, dirSect: nat, o: nat)
    ensures EntryOnly(g, ch, l, l, dirSect, o)
  {
  }

  lemma EntryOnlyAlong(g: Geo, ch: seq<nat>, l: seq<Sector>, l': seq<Sector>, l'': seq<Sector>, dirSect: nat, o: nat)
    requires Elsewhere(g, ch, l, l') && EntryOnly(g, ch, l', l'', dirSect, o)
    requires OutsideFats(g, dirSect) && !Owned(g, ch, dirSect)
    ensures EntryOnly(g, ch, l, l'', dirSect, o)
  {
    hide Owned;
  }

  /** Bytes, size and start cluster of the file as the drive alone shows them. */
  ghost predicate OnDrive(fp: Fil)
    requires FatGeo(fp.fs.geo, |fp.fs.disk|) && fp.dirOffset + 32 <= 512 && fp.dirSect < |fp.fs.disk|
    reads fp, fp.fs
  {
    && Holds(fp.fs.geo, fp.chain, fp.fs.disk, fp.contents)
    && EntryFileSize(fp.fs.disk[fp.dirSect], fp.dirOffset) == |fp.contents|
    && LdClust(fp.fs.geo.fsType, fp.fs.disk[fp.dirSect], fp.dirOffset) == (if fp.chain == [] then 0 else fp.chain[0])
  }

  /** The file as the drive alone shows it, its chain included. */
  ghost predicate Durable(fp: Fil)
    requires FatGeo(fp.fs.geo, |fp.fs.disk|) && fp.dirOffset + 32 <= 512 && fp.dirSect < |fp.fs.disk|
    reads fp, fp.fs
  {
    OnDrive(fp) && TableOf(fp.fs.geo, fp.fs.disk) == fp.fs.fat
  }
}
