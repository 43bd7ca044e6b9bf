/** f_truncate. */
module FileTruncate {
  import opened Bytes
  import opened Geometry
  import opened Volume
  import opened FatAccess
  import opened Chains
  import opened ClusterAlloc
  import opened DataArea
  import opened LinkMap
  import opened FileObject
  import opened FileBuffer
  import opened FileSeek

  /** The table after chain `ch` was cut behind its first `k` clusters, or freed when `k` is 0. */
  ghost function Truncated(fat: seq<nat>, ch: seq<nat>, k: nat, end: nat): (r: seq<nat>)
    requires (ch == [] || IsChain(fat, ch)) && k <= |ch|
    ensures |r| == |fat|
  {
    if k == 0 then Freed(fat, ch) else if k == |ch| then fat else Cut(fat, ch, k, end)
  }

  /** What each entry becomes. */
  lemma TruncatedEntry(fat: seq<nat>, ch: seq<nat>, k: nat, end: nat, c: nat)
    requires (ch == [] || IsChain(fat, ch)) && k <= |ch| && c < |fat|
    ensures Truncated(fat, ch, k, end)[c] ==
            if c in ch[k..] then 0 else if 0 < k < |ch| && c == ch[k - 1] then end else fat[c]
    ensures c in ch <==> c in ch[..k] || c in ch[k..]
  {
    InParts(ch, k, c);
    if 0 < k < |ch| {
      CutEntry(fat, ch, k, end, c);
    } else if k == 0 {
      hide IsChain;
      assert ch[k..] == ch;
    } else {
      hide IsChain, Freed;
      assert ch[k..] == [];
    }
  }

  lemma InParts(ch: seq<nat>, k: nat, c: nat)
    requires k <= |ch|
    ensures c in ch <==> c in ch[..k] || c in ch[k..]
  {
    if c in ch {
      var i :| 0 <= i < |ch| && ch[i] == c;
      assert if i < k then ch[..k][i] == c else ch[k..][i - k] == c;
    }
  }

  lemma CutEntry(fat: seq<nat>, ch: seq<nat>, k: nat, end: nat, c: nat)
    requires IsChain(fat, ch) && 0 < k < |ch| && c < |fat|
    ensures Cut(fat, ch, k, end)[c] == if c in ch[k..] then 0 else if c == ch[k - 1] then end else fat[c]
  {
    hide IsChain;
  }

  /** Truncating a chain keeps its first `k` clusters as a chain and makes the others available. */
  lemma TruncatedFacts(g: Geo, fat: seq<nat>, ch: seq<nat>, sclust: nat, k: nat, end: nat)
    requires ChainOk(fat, ch, sclust) && k <= |ch| && end >= |fat| >= 2
    ensures ChainOk(Truncated(fat, ch, k, end), ch[..k], if k == 0 then 0 else sclust)
    ensures forall s :: Avail(g, Truncated(fat, ch, k, end), ch[..k], s) <==> Avail(g, fat, ch, s)
  {
    hide IsChain;
    var fat' := Truncated(fat, ch, k, end);
    assert ch == ch[..k] + ch[k..] && (k == |ch| ==> ch[..k] == ch);
    assert ch != [] && k > 0 ==> ch[..k][0] == ch[0];
    if 0 < k < |ch| {
      CutChain(fat, ch, k, end);
    }
    hide Truncated;
    forall c: nat | InTable(fat, c)
      ensures fat'[c] == 0 || c in ch[..k] <==> fat[c] == 0 || c in ch
    {
      TruncatedEntry(fat, ch, k, end, c);
      if 0 < k < |ch| && c == ch[k - 1] {
        assert c == ch[..k][k - 1];
      }
    }
  }

  /** Truncating a chain to `k` clusters frees as many as the chain loses. */
  lemma TruncatedCount(fat: seq<nat>, ch: seq<nat>, k: nat, end: nat)
    requires (ch == [] || IsChain(fat, ch)) && k <= |ch| && end >= |fat| >= 2
    ensures FreeCount(Truncated(fat, ch, k, end)) == FreeCount(fat) + |ch| - k
  {
    if ch == [] {
      assert Truncated(fat, ch, k, end) == fat;
    } else if k == 0 {
      ChainAllocated(fat, ch);
      FreedCount(fat, ch);
    } else if k < |ch| {
      CutChain(fat, ch, k, end);
      ChainAllocated(fat, ch);
      MarkKeepsCount(fat, ch[k - 1], end);
      ChainAllocated(fat[ch[k - 1] := end], ch[k..]);
      FreedCount(fat[ch[k - 1] := end], ch[k..]);
    }
  }

  /** The FAT part of f_truncate: the whole chain is removed at the start of the file, else what follows the
      current cluster `clust`. */
  method ReleaseTail(fs: Fatfs, sclust: nat, clust: nat, atStart: bool, ghost ch: seq<nat>, ghost k: nat)
    returns (res: FResult)
    requires fs.Valid() && fs.freeClust < 0x1_0000_0000 && ChainOk(fs.fat, ch, sclust)
    requires k <= |ch| && (atStart <==> k == 0) && ch != [] && (k > 0 ==> clust == ch[k - 1])
    modifies fs`disk, fs`logical, fs`fat, fs`wflag, fs`winsect, fs`freeClust, fs`fsiDirty, fs.win
    ensures fs.Valid() && fs.freeClust < 0x1_0000_0000 && res == FrOk
    ensures SameOutsideFats(fs.geo, old(fs.logical), fs.logical)
    ensures fs.winsect == old(fs.winsect) || InFirstFat(fs.geo, fs.winsect)
    ensures fs.fat == Truncated(old(fs.fat), ch, k, EndMark(fs.geo.fsType))
    ensures old(FreeExact(fs)) ==> FreeExact(fs)
  {
    hide Fatfs.Valid, SameOutsideFats, FreeCount, Freed;
    ghost var fat := fs.fat;
    assert InTable(fat, ch[0]);
    FreeCountBound(fat);
    if atStart {
      RemovedChain(fat, ch);
      res := RemoveChain(fs, sclust);
    } else {
      SameOutsideRefl(fs.geo, fs.logical);
      ChainNext(fat, ch, sclust, k - 1, clust);
      EndMarkStored(fs.geo.fsType, 0);
      var ncl := GetFat(fs, clust);
      res := FrOk;
      if ncl == 1 {
        res := FrIntErr;
      }
      if res == FrOk && ncl < fs.geo.nFatent {
        CutChain(fat, ch, k, EndMark(fs.geo.fsType));
        MarkKeepsCount(fat, clust, EndMark(fs.geo.fsType));
        res := PutFat(fs, clust, 0x0FFF_FFFF);
        ghost var logical := fs.logical;
        RemovedChain(fs.fat, ch[k..]);
        res := RemoveChain(fs, ncl);
        SameOutsideTrans(fs.geo, old(fs.logical), logical, fs.logical);
      }
    }
  }

  lemma MarkKeepsCount(fat: seq<nat>, c: nat, end: nat)
    requires InTable(fat, c) && fat[c] != 0 && end != 0
    ensures FreeCount(fat[c := end]) == FreeCount(fat)
  {
    ZerosUpdate(fat, 2, |fat|, c, end);
  }

  /** f_truncate: the file ends at the file pointer, its chain with the last cluster that is still needed; a
      dirty buffer is written back. A link map stays good when none of its clusters is cut off. */
  method FTruncate(fp: Fil) returns (res: FResult)
    requires fp.Open()
    modifies fp.fs`disk, fp.fs`logical, fp.fs`fat, fp.fs`wflag, fp.fs`winsect, fp.fs`freeClust, fp.fs`fsiDirty
    modifies fp.fs.win
    modifies fp`fsize, fp`written, fp`sclust, fp`dirty, fp`err, fp`chain, fp`contents, fp`mapOk
    ensures fp.Open()
    ensures res == if old(fp.err) != FrOk then old(fp.err) else if !fp.canWrite then FrDenied else FrOk
    ensures fp.err == old(fp.err) && fp.written == (old(fp.written) || (res == FrOk && old(fp.fsize) > fp.fptr))
    ensures res != FrOk ==> unchanged(fp, fp.buf, fp.fs, fp.fs.win)
    ensures res != FrOk || old(fp.fsize) == fp.fptr ==>
              fp.contents == old(fp.contents) && fp.chain == old(fp.chain) && fp.fs.fat == old(fp.fs.fat)
    ensures res == FrOk && old(fp.fsize) > fp.fptr ==>
              && fp.contents == old(fp.contents)[..fp.fptr]
              && !fp.dirty && fp.written
              && ClustersFor(fp.fs.geo, fp.fptr) <= |old(fp.chain)|
              && fp.chain == old(fp.chain)[..ClustersFor(fp.fs.geo, fp.fptr)]
              && (old(fp.chain) == [] || IsChain(old(fp.fs.fat), old(fp.chain)))
              && fp.fs.fat == Truncated(old(fp.fs.fat), old(fp.chain), |fp.chain|, EndMark(fp.fs.geo.fsType))
    ensures fp.mapOk == (old(fp.mapOk) && (res == FrOk && old(fp.fsize) > fp.fptr ==> |fp.mapOf| <= |fp.chain|))
    ensures Elsewhere(fp.fs.geo, old(fp.chain), old(fp.fs.logical), fp.fs.logical)
    ensures old(FreeExact(fp.fs)) ==> FreeExact(fp.fs)
  {
    hide Fil.Stable, FatGeo, DataGeo, ChainOk, ChainOn, IsChain, Elsewhere, FreeExact, Truncated;
    ElsewhereRefl(fp.fs.geo, fp.chain, fp.fs.logical);
    if fp.err != FrOk {
      return fp.err;
    }
    if !fp.canWrite {
      return FrDenied;
    }
    res := FrOk;
    if fp.fsize > fp.fptr {
      fp.fsize := fp.fptr;
      fp.written := true;
      res := CutFile(fp);
    }
    fp.err := res;
  }

  /** The body of f_truncate on a file that ends behind the file pointer. */
  method CutFile(fp: Fil) returns (res: FResult)
    requires fp.Stable() && fp.Cursor() && !fp.growing && fp.fptr < |fp.contents|
    modifies fp.fs`disk, fp.fs`logical, fp.fs`fat, fp.fs`wflag, fp.fs`winsect, fp.fs`freeClust, fp.fs`fsiDirty
    modifies fp.fs.win
    modifies fp`sclust, fp`dirty, fp`chain, fp`contents, fp`mapOk
    ensures fp.Stable() && fp.Cursor() && res == FrOk && !fp.dirty
    ensures fp.contents == old(fp.contents)[..fp.fptr]
    ensures ClustersFor(fp.fs.geo, fp.fptr) <= |old(fp.chain)|
    ensures fp.chain == old(fp.chain)[..ClustersFor(fp.fs.geo, fp.fptr)]
    ensures old(fp.chain) == [] || IsChain(old(fp.fs.fat), old(fp.chain))
    ensures fp.fs.fat == Truncated(old(fp.fs.fat), old(fp.chain), |fp.chain|, EndMark(fp.fs.geo.fsType))
    ensures fp.mapOk == (old(fp.mapOk) && |fp.mapOf| <= |fp.chain|)
    ensures Elsewhere(fp.fs.geo, old(fp.chain), old(fp.fs.logical), fp.fs.logical)
    ensures old(FreeExact(fp.fs)) ==> FreeExact(fp.fs)
  {
    hide *;
    StableParts(fp);
    var fs := fp.fs;
    ghost var d, logical, fat, ch, first, c := fs.disk, fs.logical, fs.fat, fp.chain, fp.sclust, fp.contents;
    ghost var k, end := ClustersFor(fs.geo, fp.fptr), EndMark(fs.geo.fsType);
    CutPosition(fp);
    AvailAgrees(fs, ch);
    res := ReleaseTail(fs, fp.sclust, fp.clust, fp.fptr == 0, ch, k);
    if fp.fptr == 0 {
      fp.sclust := 0;
    }
    Shorten(fp, k);
    TruncatedFacts(fs.geo, fat, ch, first, k, end);
    WindowStaysClear(fs.geo, |fs.disk|, fat, ch, old(fs.winsect), fs.winsect);
    AvailAgrees(fs, fp.chain);
    AvailUnchanged(fs.geo, fat, ch, d, logical, fs.disk, fs.logical);
    SameOutsideElsewhere(fs.geo, ch, logical, fs.logical);
    ghost var b, l, dirty := fp.buf[..], fs.logical, fp.dirty;
    CutFacts(fs.geo, fat, fs.fat, ch, first, k, d, fs.disk, fs.logical, b, fp.dsect, fp.dirty, c, fp.fptr, fp.clust);
    WriteBack(fp, d, fat, ch);
    ElsewhereTrans(fs.geo, ch, ch, logical, l, fs.logical);
    StableAgain(fp);
  }

  /** Writes a dirty buffer back. */
  method WriteBack(fp: Fil, ghost d: seq<Sector>, ghost fat: seq<nat>, ghost ch: seq<nat>)
    requires fp.fs.Valid() && fp.buf.Length == 512 && fp.buf != fp.fs.win && DataGeo(fp.fs.geo, |d|)
             && |d| == |fp.fs.disk|
    requires BufferOk(fp.fs.geo, fat, ch, d, fp.buf[..], fp.dsect, fp.dirty, false)
             && !Avail(fp.fs.geo, fat, ch, fp.fs.winsect)
    modifies fp.fs`disk, fp.fs`logical, fp`dirty
    ensures fp.fs.Valid() && !fp.dirty && |fp.fs.disk| == old(|fp.fs.disk|)
    ensures old(fp.dirty) ==> fp.dsect < |d| && fp.fs.disk == old(fp.fs.disk)[fp.dsect := fp.buf[..]]
    ensures !old(fp.dirty) ==> fp.fs.disk == old(fp.fs.disk)
    ensures Elsewhere(fp.fs.geo, ch, old(fp.fs.logical), fp.fs.logical)
  {
    ValidShape(fp.fs);
    hide *;
    ElsewhereRefl(fp.fs.geo, ch, fp.fs.logical);
    if fp.dirty {
      DirtySector(fp.fs.geo, |fp.fs.disk|, fat, ch, d, fp.buf[..], fp.dsect, fp.fs.winsect);
      DiskWrite(fp.fs, fp.dsect, fp.buf[..]);
      fp.dirty := false;
    }
  }

  /** The file is shorter; its link map with it, unless one of its clusters is gone. */
  ghost method Shorten(fp: Fil, k: nat)
    requires k <= |fp.chain| && fp.fptr <= |fp.contents| && fp.MapGood()
    modifies fp`chain, fp`contents, fp`mapOk
    ensures fp.chain == old(fp.chain)[..k] && fp.contents == old(fp.contents)[..fp.fptr] && fp.MapGood()
    ensures fp.mapOk == (old(fp.mapOk) && |fp.mapOf| <= k)
  {
    hide MapsChain;
    fp.chain, fp.contents := fp.chain[..k], fp.contents[..fp.fptr];
    fp.mapOk := fp.mapOk && |fp.mapOf| <= k;
  }

  lemma ValidShape(fs: Fatfs)
    requires fs.Valid()
    ensures FatGeo(fs.geo, |fs.disk|) && |fs.logical| == |fs.disk|
  {
    hide FatGeo;
  }

  /** What makes an open file stable, taken apart. */
  lemma StableParts(fp: Fil)
    requires fp.Stable() && fp.Cursor()
    ensures !Avail(fp.fs.geo, fp.fs.fat, fp.chain, fp.fs.winsect) && FatGeo(fp.fs.geo, |fp.fs.disk|)
    ensures BufferOk(fp.fs.geo, fp.fs.fat, fp.chain, fp.fs.disk, fp.buf[..], fp.dsect, fp.dirty, fp.growing)
    ensures Holds(fp.fs.geo, fp.chain, ViewOf(fp.fs.disk, fp.buf[..], fp.dsect, fp.dirty), fp.contents)
    ensures CursorAt(fp.fs.geo, fp.chain, fp.fptr, fp.clust, fp.dsect, |fp.contents|)
    ensures |fp.fs.logical| == |fp.fs.disk| && EndMark(fp.fs.geo.fsType) >= |fp.fs.fat|
    ensures fp.MapGood()
  {
    hide DataGeo, ChainOn, IsChain, SectorIs, BufferOk, Holds, CursorAt, ViewOf;
  }

  /** And put together. */
  lemma StableAgain(fp: Fil)
    requires fp.fs.Valid() && fp.fs.freeClust < 0x1_0000_0000 && DataGeo(fp.fs.geo, |fp.fs.disk|)
    requires fp.MapGood()
    requires fp.buf.Length == 512 && fp.buf != fp.fs.win && ChainOk(fp.fs.fat, fp.chain, fp.sclust)
    requires !Avail(fp.fs.geo, fp.fs.fat, fp.chain, fp.fs.winsect)
    requires BufferOk(fp.fs.geo, fp.fs.fat, fp.chain, fp.fs.disk, fp.buf[..], fp.dsect, fp.dirty, fp.growing)
    requires Holds(fp.fs.geo, fp.chain, ViewOf(fp.fs.disk, fp.buf[..], fp.dsect, fp.dirty), fp.contents)
    requires CursorAt(fp.fs.geo, fp.chain, fp.fptr, fp.clust, fp.dsect, |fp.contents|)
    ensures fp.Stable() && fp.Cursor()
  {
    hide FatGeo, DataGeo, ChainOn, ChainOk, IsChain, SectorIs, BufferOk, Holds, CursorAt, ViewOf, Fatfs.Valid;
  }

  /** The file pointer lies inside the chain, and the current cluster is the last one that is kept. */
  lemma CutPosition(fp: Fil)
    requires fp.Stable() && fp.Cursor() && fp.fptr < |fp.contents|
    ensures fp.chain != [] && IsChain(fp.fs.fat, fp.chain)
    ensures ClustersFor(fp.fs.geo, fp.fptr) <= |fp.chain| && (fp.fptr == 0 <==> ClustersFor(fp.fs.geo, fp.fptr) == 0)
    ensures fp.fptr > 0 ==> fp.clust == fp.chain[ClustersFor(fp.fs.geo, fp.fptr) - 1]
  {
    hide Fil.Stable, FatGeo, DataGeo, ChainOn, IsChain, SectorIs;
    ReadRoom(fp, fp.fptr + 1);
  }

  lemma DirtySector(g: Geo, total: nat, fat: seq<nat>, ch: seq<nat>, d: seq<Sector>, buf: Sector, dsect: nat,
                    winsect: nat)
    requires FatGeo(g, total) && DataGeo(g, total) && |d| == total
    requires BufferOk(g, fat, ch, d, buf, dsect, true, false) && !Avail(g, fat, ch, winsect)
    ensures dsect < total && dsect != winsect && OutsideFats(g, dsect) && Owned(g, ch, dsect)
    ensures forall l: seq<Sector> | |l| == total :: Elsewhere(g, ch, l, l[dsect := buf])
  {
    AvailOutside(g, total, fat, ch, dsect);
  }

  /** The buffer written back if dirty, the shorter chain holds the bytes before the cut. */
  lemma CutFacts(g: Geo, fat: seq<nat>, fat': seq<nat>, ch: seq<nat>, sclust: nat, k: nat, d: seq<Sector>,
                 d': seq<Sector>, l: seq<Sector>,
                 buf: Sector, dsect: nat, dirty: bool, c: seq<byte>, at: nat, clust: nat)
    requires FatGeo(g, |d|) && DataGeo(g, |d|) && ChainOk(fat, ch, sclust) && ChainOn(g, ch) && |d'| == |d|
    requires BufferOk(g, fat, ch, d, buf, dsect, dirty, false) && Holds(g, ch, ViewOf(d, buf, dsect, dirty), c)
    requires forall s: nat | s < |d| && Avail(g, fat, ch, s) :: d'[s] == d[s]
    requires k <= |ch| && forall s :: Avail(g, fat', ch[..k], s) <==> Avail(g, fat, ch, s)
    requires g.csize > 0 && k == ClustersFor(g, at) && at < |c| && CursorAt(g, ch, at, clust, dsect, |c|)
    ensures var e := if dirty then d'[dsect := buf] else d';
            && BufferOk(g, fat', ch[..k], e, buf, dsect, false, false)
            && Holds(g, ch[..k], ViewOf(e, buf, dsect, false), c[..at])
    ensures CursorAt(g, ch[..k], at, clust, dsect, at)
  {
    hide FatGeo, DataGeo, ChainOk, ChainOn, IsChain, Avail, Owned, Holds, CursorAt, SectorIs;
    var v, e := ViewOf(d, buf, dsect, dirty), if dirty then d'[dsect := buf] else d';
    forall s: nat | s < |v| && Owned(g, ch, s) ensures e[s] == v[s] {
      OwnedAvail(g, fat, ch, sclust, s);
    }
    CutHolds(g, ch, k, v, e, c, at);
    CutCursor(g, ch, k, at, clust, dsect, |c|);
  }

  lemma CutHolds(g: Geo, ch: seq<nat>, k: nat, v: seq<Sector>, v': seq<Sector>, c: seq<byte>, at: nat)
    requires FatGeo(g, |v|) && DataGeo(g, |v|) && ChainOn(g, ch) && |v'| == |v| && Holds(g, ch, v, c)
    requires forall s: nat | s < |v| && Owned(g, ch, s) :: v'[s] == v[s]
    requires g.csize > 0 && k == ClustersFor(g, at) <= |ch| && at <= |c|
    ensures Holds(g, ch[..k], v', c[..at])
  {
    hide FatGeo, DataGeo, SectorOf, Owned;
    HoldsKept(g, ch, v, v', c);
    forall i: nat | i < at ensures BytePlaced(g, ch[..k], v', i, c[..at][i]) {
      assert BytePlaced(g, ch, v', i, c[i]);
      DivMonotone(i / 512, (at - 1) / 512, g.csize);
      SectorOfPrefix(g, ch[..k], ch, i / 512);
    }
  }

  lemma CutCursor(g: Geo, ch: seq<nat>, k: nat, at: nat, clust: nat, dsect: nat, len: nat)
    requires g.csize > 0 && CursorAt(g, ch, at, clust, dsect, len) && k <= |ch| && k == ClustersFor(g, at)
    ensures CursorAt(g, ch[..k], at, clust, dsect, at)
  {
    hide SectorOf;
    if at % 512 != 0 {
      assert (at - 1) / 512 == at / 512;
      SectorOfPrefix(g, ch[..k], ch, at / 512);
    }
  }
}
