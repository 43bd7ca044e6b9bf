/** f_write. */
module FileWrite {
  import opened Bytes
  import opened Geometry
  import opened Volume
  import opened Chains
  import opened ClusterAlloc
  import opened DataArea
  import opened LinkMap
  import opened FileObject
  import opened FileBuffer
  import opened FileRead

  // ----- bytes written over part of a cluster -----

  /** The view `v'` shows `c'` in the `cc` sectors from `s` on, which are sectors `k`.. of the file. */
  ghost predicate ShowsRun(v': seq<Sector>, c': seq<byte>, k: nat, s: nat, cc: nat) {
    && s + cc <= |v'|
    && forall i: nat | k * 512 <= i < (k + cc) * 512 && i < |c'| :: v'[s + (i / 512 - k)][i % 512] == c'[i]
  }

  /** Sectors of the file that a run does not cover are none of the run's sectors. */
  lemma OutsideRun(g: Geo, total: nat, ch: seq<nat>, k: nat, s: nat, cc: nat, x: nat)
    requires FatGeo(g, total) && DataGeo(g, total) && ChainOn(g, ch)
    requires SectorIs(g, ch, k, s) && k % g.csize + cc <= g.csize && x / g.csize < |ch| && !(k <= x < k + cc)
    ensures !(s <= SectorOf(g, ch, x) < s + cc)
  {
    hide FatGeo, DataGeo, SectorOf;
    var t := SectorOf(g, ch, x);
    if s <= t < s + cc {
      SectorsInRow(g, ch, k, s, t - s);
      SectorOfInjective(g, total, ch, x, k + (t - s));
    }
  }

  /** Writing `p` over a run of sectors of one cluster writes it over the contents. */
  lemma HoldsPatched(g: Geo, ch: seq<nat>, v: seq<Sector>, v': seq<Sector>, c: seq<byte>, at: nat, p: seq<byte>,
                     k: nat, s: nat, cc: nat)
    requires FatGeo(g, |v|) && DataGeo(g, |v|) && ChainOn(g, ch) && |v'| == |v|
    requires Holds(g, ch, v, c) && SectorIs(g, ch, k, s) && k % g.csize + cc <= g.csize
    requires k * 512 <= at <= |c| && at + |p| <= (k + cc) * 512
    requires forall x: nat | x < |v| && !(s <= x < s + cc) :: v'[x] == v[x]
    requires ShowsRun(v', Patched(c, at, p), k, s, cc)
    ensures Holds(g, ch, v', Patched(c, at, p))
  {
    hide FatGeo, DataGeo, SectorOf;
    var c' := Patched(c, at, p);
    forall i: nat | i < |c'| ensures BytePlaced(g, ch, v', i, c'[i]) {
      if k <= i / 512 < k + cc {
        SectorsInRow(g, ch, k, s, i / 512 - k);
      } else {
        assert BytePlaced(g, ch, v, i, c[i]);
        OutsideRun(g, |v|, ch, k, s, cc, i / 512);
      }
    }
  }

  // ----- the cluster to write to -----

  /** The cluster at a cluster boundary, allocated when the file ends there; 0 when there is none to get, 1 when the
      search for one meets a broken entry. */
  method FindWriteCluster(fp: Fil) returns (clst: nat)
    requires fp.Stable() && fp.Cursor() && fp.MapUsable() && fp.fptr % 512 == 0 && fp.fptr / 512 % fp.fs.geo.csize == 0
    modifies fp.fs`disk, fp.fs`logical, fp.fs`fat, fp.fs`wflag, fp.fs`winsect, fp.fs`lastClust, fp.fs`freeClust
    modifies fp.fs`fsiDirty, fp.fs.win, fp`chain, fp`sclust
    ensures fp.Stable() && fp.Cursor() && SameOutsideFats(fp.fs.geo, old(fp.fs.logical), fp.fs.logical)
    ensures Grown(old(fp.fs.fat), fp.fs.fat, old(fp.chain), fp.chain) && GrownFor(fp, old(fp.chain), fp.fptr + 1)
    ensures clst >= 2 ==> ClusterIs(fp.fs.geo, fp.chain, fp.fptr, clst)
    ensures clst < 2 ==> fp.chain == old(fp.chain) && Stuck(fp, clst == 1)
    ensures old(FreeExact(fp.fs)) ==> FreeExact(fp.fs)
  {
    hide Fatfs.Valid, Avail, DataGeo, BufferOk, Holds, SectorIs, SameOutsideFats, Grown, FreeCount, Unbroken;
    GrownRefl(fp.fs.fat, fp.chain);
    SameOutsideRefl(fp.fs.geo, fp.fs.logical);
    if fp.fptr == 0 {
      clst := fp.sclust;
      if clst == 0 {
        clst := StretchChain(fp, 0, -1);
      }
    } else {
      clst := FollowWriteCluster(fp);
    }
  }

  /** The same behind the first cluster: looked up in the link map, or the successor of the current cluster. */
  method FollowWriteCluster(fp: Fil) returns (clst: nat)
    requires fp.Stable() && fp.Cursor() && fp.MapUsable() && fp.fptr % 512 == 0 && fp.fptr / 512 % fp.fs.geo.csize == 0
    requires fp.fptr > 0
    modifies fp.fs`disk, fp.fs`logical, fp.fs`fat, fp.fs`wflag, fp.fs`winsect, fp.fs`lastClust, fp.fs`freeClust
    modifies fp.fs`fsiDirty, fp.fs.win, fp`chain, fp`sclust
    ensures fp.Stable() && fp.Cursor() && SameOutsideFats(fp.fs.geo, old(fp.fs.logical), fp.fs.logical)
    ensures Grown(old(fp.fs.fat), fp.fs.fat, old(fp.chain), fp.chain) && GrownFor(fp, old(fp.chain), fp.fptr + 1)
    ensures clst >= 2 ==> ClusterIs(fp.fs.geo, fp.chain, fp.fptr, clst)
    ensures clst < 2 ==> fp.chain == old(fp.chain) && Stuck(fp, clst == 1)
    ensures old(FreeExact(fp.fs)) ==> FreeExact(fp.fs)
  {
    hide Fatfs.Valid, Avail, DataGeo, BufferOk, Holds, SectorIs, SameOutsideFats, Grown, FreeCount, Unbroken;
    var fs := fp.fs;
    ghost var ch := fp.chain;
    GrownRefl(fs.fat, ch);
    SameOutsideRefl(fs.geo, fs.logical);
    CursorBoundary(fs.geo, ch, fp.fptr, fp.clust, fp.dsect, |fp.contents|);
    ghost var q := fp.fptr / 512 / fs.geo.csize - 1;
    if fp.cltbl != null {
      clst := ClmtClust(fp.cltbl, fp.fptr, fs.geo.csize, fp.mapOf);
    } else {
      clst := StretchChain(fp, fp.clust, q);
      CursorLonger(fs.geo, ch, fp.chain, fp.fptr, fp.clust, fp.dsect, |fp.contents|);
    }
  }

  /** The chain got longer only as far as `n` bytes need; with a link map only an empty file gets a cluster. */
  ghost predicate GrownFor(fp: Fil, ch: seq<nat>, n: nat)
    reads fp`cltbl, fp`chain, fp.fs`geo
  {
    GrownBy(fp.fs.geo, ch, fp.chain, n, fp.cltbl != null)
  }

  ghost predicate GrownBy(g: Geo, ch: seq<nat>, ch': seq<nat>, n: nat, mapped: bool) {
    LongEnough(g, ch, ch', n) && (mapped ==> ch' == ch || (ch == [] && |ch'| == 1))
  }

  lemma GrownByRefl(g: Geo, ch: seq<nat>, n: nat, mapped: bool)
    ensures GrownBy(g, ch, ch, n, mapped)
  {
  }

  lemma GrownByTrans(g: Geo, ch: seq<nat>, ch': seq<nat>, ch'': seq<nat>, n: nat, n': nat, mapped: bool)
    requires GrownBy(g, ch, ch', n, mapped) && GrownBy(g, ch', ch'', n', mapped) && n <= n' && g.csize > 0
    ensures GrownBy(g, ch, ch'', n', mapped)
  {
    LongEnoughTrans(g, ch, ch', ch'', n, n');
  }

  /** Nothing to continue in: the volume is full at the end of the chain, or the link map of the file ends here. */
  ghost predicate NoCluster(fp: Fil)
    requires |fp.fs.fat| >= 2
    reads fp`cltbl, fp`chain, fp`fptr, fp`mapOf, fp.fs`fat, fp.fs`geo
  {
    && fp.fs.geo.csize > 0
    && var q := fp.fptr / 512 / fp.fs.geo.csize;
       if fp.cltbl == null || fp.chain == [] then FreeCount(fp.fs.fat) == 0 && q >= |fp.chain|
       else q >= 1 && q >= |fp.mapOf|
  }

  /** Why a transfer stops early. */
  ghost predicate Stuck(fp: Fil, broken: bool)
    requires |fp.fs.fat| >= 2
    reads fp`cltbl, fp`chain, fp`fptr, fp`mapOf, fp.fs`fat, fp.fs`geo
  {
    if broken then !Unbroken(fp.fs.fat) else NoCluster(fp)
  }

  lemma CursorLonger(g: Geo, ch: seq<nat>, ch': seq<nat>, at: nat, clust: nat, dsect: nat, len: nat)
    requires CursorAt(g, ch, at, clust, dsect, len) && ch <= ch'
    ensures CursorAt(g, ch', at, clust, dsect, len)
  {
    hide SectorOf;
    if at % 512 != 0 {
      SectorOfPrefix(g, ch, ch', at / 512);
    }
    if at > 0 {
      assert ch'[(at - 1) / 512 / g.csize] == ch[(at - 1) / 512 / g.csize];
    }
  }

  /** Makes the cluster of the file pointer the current one, on a sector boundary. */
  method SelectCluster(fp: Fil) returns (ok: bool, broken: bool)
    requires fp.Stable() && fp.Cursor() && fp.MapUsable() && fp.fptr % 512 == 0
    modifies fp.fs`disk, fp.fs`logical, fp.fs`fat, fp.fs`wflag, fp.fs`winsect, fp.fs`lastClust, fp.fs`freeClust
    modifies fp.fs`fsiDirty, fp.fs.win, fp`chain, fp`sclust, fp`clust
    ensures fp.Stable() && SameOutsideFats(fp.fs.geo, old(fp.fs.logical), fp.fs.logical)
    ensures Grown(old(fp.fs.fat), fp.fs.fat, old(fp.chain), fp.chain) && GrownFor(fp, old(fp.chain), fp.fptr + 1)
    ensures ok ==> ClusterIs(fp.fs.geo, fp.chain, fp.fptr, fp.clust)
    ensures !ok ==> fp.Cursor() && fp.chain == old(fp.chain) && Stuck(fp, broken)
    ensures old(FreeExact(fp.fs)) ==> FreeExact(fp.fs)
  {
    hide Fil.Stable, FatGeo, DataGeo, ChainOk, ChainOn, SectorIs, SameOutsideFats, Grown, FreeCount, ClusterIs;
    hide CursorAt, Stuck;
    ok, broken := true, false;
    if fp.fptr / 512 % fp.fs.geo.csize == 0 {
      var clst := FindWriteCluster(fp);
      if clst < 2 {
        return false, clst == 1;
      }
      fp.clust := clst;
    } else {
      GrownRefl(fp.fs.fat, fp.chain);
      SameOutsideRefl(fp.fs.geo, fp.fs.logical);
      CursorInside(fp.fs.geo, fp.chain, fp.fptr, fp.clust, fp.dsect, |fp.contents|);
    }
  }

  /** Enters the sector at the file pointer for writing; a dirty buffer is written back first. */
  method EnterWriteSector(fp: Fil) returns (ok: bool, broken: bool, sect: nat, csect: nat)
    requires fp.Stable() && fp.Cursor() && fp.MapUsable() && fp.fptr % 512 == 0
    modifies fp.fs`disk, fp.fs`logical, fp.fs`fat, fp.fs`wflag, fp.fs`winsect, fp.fs`lastClust, fp.fs`freeClust
    modifies fp.fs`fsiDirty, fp.fs.win, fp`chain, fp`sclust, fp`clust, fp`dirty
    ensures fp.Stable() && Elsewhere(fp.fs.geo, fp.chain, old(fp.fs.logical), fp.fs.logical)
    ensures Grown(old(fp.fs.fat), fp.fs.fat, old(fp.chain), fp.chain) && GrownFor(fp, old(fp.chain), fp.fptr + 1)
    ensures ok ==> !fp.dirty && AtSector(fp.fs.geo, fp.chain, fp.fptr, fp.clust, sect, csect)
    ensures !ok ==> fp.Cursor() && fp.chain == old(fp.chain) && Stuck(fp, broken)
    ensures old(FreeExact(fp.fs)) ==> FreeExact(fp.fs)
  {
    hide Fil.Stable, FatGeo, DataGeo, ChainOk, ChainOn, SectorIs, SameOutsideFats, Grown, Elsewhere, ClusterIs;
    hide CursorAt, Stuck, FreeCount;
    csect := fp.fptr / 512 % fp.fs.geo.csize;
    ok, broken := SelectCluster(fp);
    SameOutsideElsewhere(fp.fs.geo, fp.chain, old(fp.fs.logical), fp.fs.logical);
    if !ok {
      return false, broken, 0, csect;
    }
    ghost var logical := fp.fs.logical;
    FlushBuffer(fp);
    ElsewhereTrans(fp.fs.geo, fp.chain, fp.chain, old(fp.fs.logical), logical, fp.fs.logical);
    SectorHere(fp, fp.fptr, fp.clust);
    sect := ClustToSect(fp.fs.geo, fp.clust) + csect;
  }

  // ----- whole sectors -----

  /** Drive `d'` is `d` with the `cc` sectors from `s` on taken from `data`. */
  ghost predicate RunWritten(d: seq<Sector>, d': seq<Sector>, s: nat, cc: nat, data: seq<byte>) {
    && |d'| == |d| && s + cc <= |d| && |data| == cc * 512
    && (forall x: nat | x < |d| && !(s <= x < s + cc) :: d'[x] == d[x])
    && (forall x: nat | s <= x < s + cc :: d'[x] == data[(x - s) * 512..(x - s) * 512 + 512])
  }

  lemma NothingWritten(d: seq<Sector>, s: nat)
    requires s <= |d|
    ensures RunWritten(d, d, s, 0, [])
  {
  }

  lemma OneMoreWritten(d: seq<Sector>, d': seq<Sector>, s: nat, j: nat, data: seq<byte>)
    requires j * 512 + 512 <= |data| && RunWritten(d, d', s, j, data[..j * 512]) && s + j < |d|
    ensures s + j < |d'| && RunWritten(d, d'[s + j := data[j * 512..j * 512 + 512]], s, j + 1, data[..(j + 1) * 512])
  {
    forall x: nat | s <= x < s + j ensures d'[x] == data[(x - s) * 512..(x - s) * 512 + 512] {
      assert data[..j * 512][(x - s) * 512..(x - s) * 512 + 512] == data[(x - s) * 512..(x - s) * 512 + 512];
    }
  }

  /** disk_write of `cc` sectors the window does not show. */
  method DiskWriteRun(fs: Fatfs, s: nat, cc: nat, data: seq<byte>)
    requires fs.Valid() && s + cc <= |fs.disk| && |data| == cc * 512 && s >= FatEnd(fs.geo)
    requires !(s <= fs.winsect < s + cc)
    modifies fs`disk, fs`logical
    ensures fs.Valid()
    ensures RunWritten(old(fs.disk), fs.disk, s, cc, data) && RunWritten(old(fs.logical), fs.logical, s, cc, data)
  {
    hide Fatfs.Valid, RunWritten;
    var j: nat := 0;
    NothingWritten(fs.disk, s);
    NothingWritten(fs.logical, s);
    assert data[..0] == [];
    while j < cc
      invariant fs.Valid() && j <= cc
      invariant |fs.disk| == |old(fs.disk)| && |fs.logical| == |old(fs.logical)|
      invariant RunWritten(old(fs.disk), fs.disk, s, j, data[..j * 512])
      invariant RunWritten(old(fs.logical), fs.logical, s, j, data[..j * 512])
    {
      ghost var d, l := fs.disk, fs.logical;
      DiskWrite(fs, s + j, data[j * 512..j * 512 + 512]);
      OneMoreWritten(old(fs.disk), d, s, j, data);
      OneMoreWritten(old(fs.logical), l, s, j, data);
      j := j + 1;
    }
    assert data[..cc * 512] == data;
  }

  /** A run of sectors written to the drive and a buffer refilled from it when it stood for one of them. */
  lemma RunFacts(g: Geo, fat: seq<nat>, ch: seq<nat>, sclust: nat, d: seq<Sector>, d': seq<Sector>, buf: Sector,
                 buf': Sector,
                 dsect: nat, c: seq<byte>, at: nat, clust: nat, sect: nat, csect: nat, cc: nat, data: seq<byte>)
    requires FatGeo(g, |d|) && DataGeo(g, |d|) && ChainOk(fat, ch, sclust) && ChainOn(g, ch)
    requires BufferOk(g, fat, ch, d, buf, dsect, false, false) && Holds(g, ch, d, c)
    requires AtSector(g, ch, at, clust, sect, csect) && csect + cc <= g.csize && at <= |c|
    requires RunWritten(d, d', sect, cc, data)
    requires buf' == if sect <= dsect < sect + cc then data[(dsect - sect) * 512..(dsect - sect) * 512 + 512] else buf
    ensures BufferOk(g, fat, ch, d', buf', dsect, false, false)
    ensures Holds(g, ch, d', Patched(c, at, data))
  {
    hide FatGeo, DataGeo, ChainOk, ChainOn, Holds, SectorIs, Avail, Owned;
    var c' := Patched(c, at, data);
    forall i: nat | at / 512 * 512 <= i < (at / 512 + cc) * 512 && i < |c'|
      ensures d'[sect + (i / 512 - at / 512)][i % 512] == c'[i]
    {
      assert c'[i] == data[i - at];
    }
    HoldsPatched(g, ch, d, d', c, at, data, at / 512, sect, cc);
  }

  /** The sectors of a run inside one cluster are on the drive, behind the FAT copies, and not in the window. */
  lemma RunRange(g: Geo, total: nat, fat: seq<nat>, ch: seq<nat>, sclust: nat, at: nat, clust: nat, sect: nat,
                 csect: nat,
                 cc: nat, winsect: nat)
    requires FatGeo(g, total) && DataGeo(g, total) && ChainOk(fat, ch, sclust) && ChainOn(g, ch)
    requires AtSector(g, ch, at, clust, sect, csect) && csect + cc <= g.csize && cc > 0
    requires !Avail(g, fat, ch, winsect)
    ensures FatEnd(g) <= sect && sect + cc <= total && !(sect <= winsect < sect + cc)
    ensures forall x: nat | sect <= x < sect + cc :: Owned(g, ch, x)
  {
    hide FatGeo, DataGeo, ChainOk, ChainOn, SectorIs, Avail, Owned;
    forall x: nat | sect <= x < sect + cc ensures Owned(g, ch, x) && Avail(g, fat, ch, x) {
      RunSector(g, total, fat, ch, sclust, at / 512, sect, x);
    }
    RunSector(g, total, fat, ch, sclust, at / 512, sect, sect);
    RunSector(g, total, fat, ch, sclust, at / 512, sect, sect + cc - 1);
  }

  lemma RunSector(g: Geo, total: nat, fat: seq<nat>, ch: seq<nat>, sclust: nat, k: nat, sect: nat, x: nat)
    requires FatGeo(g, total) && DataGeo(g, total) && ChainOk(fat, ch, sclust) && ChainOn(g, ch)
    requires SectorIs(g, ch, k, sect) && sect <= x && k % g.csize + (x - sect) < g.csize
    ensures FatEnd(g) <= x < total && Owned(g, ch, x) && Avail(g, fat, ch, x)
  {
    hide FatGeo, DataGeo, ChainOk, ChainOn, SectorIs, Avail, Owned;
    SectorsInRow(g, ch, k, sect, x - sect);
    DataSector(g, total, fat, ch, sclust, k + (x - sect), x);
    AvailOutside(g, total, fat, ch, x);
  }

  lemma RunElsewhere(g: Geo, ch: seq<nat>, d: seq<Sector>, d': seq<Sector>, s: nat, cc: nat, data: seq<byte>)
    requires RunWritten(d, d', s, cc, data) && forall x: nat | s <= x < s + cc :: Owned(g, ch, x)
    ensures Elsewhere(g, ch, d, d')
  {
  }

  /** Writes whole sectors straight to the drive; a clean buffer that stands for one of them is refreshed. */
  method WriteDirect(fp: Fil, data: seq<byte>, sect: nat, csect: nat, cc: nat)
    requires fp.Stable() && !fp.dirty && !fp.growing && AtSector(fp.fs.geo, fp.chain, fp.fptr, fp.clust, sect, csect)
    requires cc > 0 && csect + cc <= fp.fs.geo.csize && |data| == cc * 512 && fp.fptr <= |fp.contents|
    modifies fp.fs`disk, fp.fs`logical, fp`dirty, fp`contents, fp.buf
    ensures fp.Stable() && !fp.dirty
    ensures fp.contents == Patched(old(fp.contents), fp.fptr, data)
    ensures Elsewhere(fp.fs.geo, fp.chain, old(fp.fs.logical), fp.fs.logical)
  {
    hide Fatfs.Valid, FatGeo, DataGeo, ChainOk, ChainOn, Avail, BufferOk, Holds, AtSector, RunWritten, Elsewhere;
    var fs := fp.fs;
    ghost var d, buf, contents := fs.disk, fp.buf[..], fp.contents;
    RunRange(fs.geo, |fs.disk|, fs.fat, fp.chain, fp.sclust, fp.fptr, fp.clust, sect, csect, cc, fs.winsect);
    BufferSectorSmall(fs.geo, fs.fat, fp.chain, d, buf, fp.dsect, fp.dirty, fp.growing);
    assert |fs.disk| <= 0x1_0000_0000 by { DriveSmall(fs.geo, |fs.disk|); }
    DiskWriteRun(fs, sect, cc, data);
    RunElsewhere(fs.geo, fp.chain, old(fs.logical), fs.logical, sect, cc, data);
    Sub32Less(fp.dsect, sect, cc);
    if Sub32(fp.dsect, sect) < cc {
      var from := Sub32(fp.dsect, sect) * 512;
      forall i | 0 <= i < 512 {
        fp.buf[i] := data[from + i];
      }
      fp.dirty := false;
      assert fp.buf[..] == data[(fp.dsect - sect) * 512..(fp.dsect - sect) * 512 + 512];
    }
    fp.contents := Patched(contents, fp.fptr, data);
    RunFacts(fs.geo, fs.fat, fp.chain, fp.sclust, d, fs.disk, buf, fp.buf[..], fp.dsect, contents,
             fp.fptr, fp.clust, sect, csect, cc, data);
  }

  lemma DriveSmall(g: Geo, total: nat)
    requires FatGeo(g, total)
    ensures total <= 0x1_0000_0000
  {
  }

  lemma BufferSectorSmall(g: Geo, fat: seq<nat>, ch: seq<nat>, d: seq<Sector>, buf: Sector, dsect: nat, dirty: bool,
                          growing: bool)
    requires BufferOk(g, fat, ch, d, buf, dsect, dirty, growing) && |d| > 0
    ensures dsect < |d|
  {
  }

  // ----- a part of a sector -----

  /** Makes the buffer stand for the sector at the file pointer; at the growing edge it is not filled. */
  method PrepareBuffer(fp: Fil, sect: nat, ghost csect: nat)
    requires fp.Stable() && !fp.dirty && !fp.growing && AtSector(fp.fs.geo, fp.chain, fp.fptr, fp.clust, sect, csect)
    requires fp.fptr <= |fp.contents| && (fp.fptr < fp.fsize <==> fp.fptr < |fp.contents|)
    modifies fp`dsect, fp`growing, fp.buf
    ensures fp.Stable() && (fp.growing ==> fp.fptr == |fp.contents|)
    ensures ClusterIs(fp.fs.geo, fp.chain, fp.fptr, fp.clust) && SectorIs(fp.fs.geo, fp.chain, fp.fptr / 512, fp.dsect)
  {
    hide Fatfs.Valid, FatGeo, DataGeo, ChainOk, ChainOn, Avail, Holds, Owned, SectorIs;
    var fs := fp.fs;
    DataSector(fs.geo, |fs.disk|, fs.fat, fp.chain, fp.sclust, fp.fptr / 512, sect);
    if fp.dsect != sect {
      if fp.fptr < fp.fsize {
        DiskRead(fs, fp.buf, 0, sect, 1);
        assert fp.buf[..] == fs.disk[sect];
      } else {
        fp.growing := true;
      }
    }
    fp.dsect := sect;
  }

  /** Bytes put into the buffer: dirty now, it lays the patched contents over the drive. */
  lemma PartFacts(g: Geo, fat: seq<nat>, ch: seq<nat>, sclust: nat, d: seq<Sector>, buf: Sector, buf': Sector,
                  dsect: nat, dirty: bool, growing: bool, c: seq<byte>, at: nat, p: seq<byte>)
    requires FatGeo(g, |d|) && DataGeo(g, |d|) && ChainOk(fat, ch, sclust) && ChainOn(g, ch)
    requires BufferOk(g, fat, ch, d, buf, dsect, dirty, growing) && Holds(g, ch, ViewOf(d, buf, dsect, dirty), c)
    requires SectorIs(g, ch, at / 512, dsect) && at <= |c| && at % 512 + |p| <= 512
    requires growing ==> at % 512 == 0 && at == |c|
    requires buf' == Splice(buf, at % 512, p)
    ensures BufferOk(g, fat, ch, d, buf', dsect, true, false)
    ensures Holds(g, ch, ViewOf(d, buf', dsect, true), Patched(c, at, p))
  {
    hide FatGeo, DataGeo, ChainOk, ChainOn, Holds, SectorIs, Avail, Owned;
    DataSector(g, |d|, fat, ch, sclust, at / 512, dsect);
    var v, v', c' := ViewOf(d, buf, dsect, dirty), ViewOf(d, buf', dsect, true), Patched(c, at, p);
    forall i: nat | at / 512 * 512 <= i < (at / 512 + 1) * 512 && i < |c'|
      ensures v'[dsect + (i / 512 - at / 512)][i % 512] == c'[i]
    {
      assert i / 512 == at / 512 && i % 512 == i - at / 512 * 512;
      if i < |c| && !(at <= i < at + |p|) {
        assert v[dsect] == buf;
        PlacedAt(g, ch, v, c, i, dsect);
      }
    }
    HoldsPatched(g, ch, v, v', c, at, p, at / 512, dsect, 1);
  }

  lemma PlacedAt(g: Geo, ch: seq<nat>, v: seq<Sector>, c: seq<byte>, i: nat, s: nat)
    requires Holds(g, ch, v, c) && i < |c| && SectorIs(g, ch, i / 512, s)
    ensures s < |v| && v[s][i % 512] == c[i]
  {
    assert BytePlaced(g, ch, v, i, c[i]);
  }

  /** Puts bytes of one sector into the buffer; the file pointer moves behind them. */
  method WritePart(fp: Fil, data: seq<byte>, o: nat, btw: nat) returns (wcnt: nat)
    requires fp.Stable() && 0 < btw && o + btw <= |data| && fp.fptr <= |fp.contents| < 0x1_0000_0000
    requires fp.fptr + btw < 0x1_0000_0000
    requires ClusterIs(fp.fs.geo, fp.chain, fp.fptr, fp.clust) && SectorIs(fp.fs.geo, fp.chain, fp.fptr / 512, fp.dsect)
    requires fp.growing ==> fp.fptr % 512 == 0 && fp.fptr == |fp.contents|
    modifies fp`fptr, fp`dirty, fp`growing, fp`contents, fp.buf
    ensures fp.Stable() && fp.Cursor() && !fp.growing
    ensures 0 < wcnt <= btw && fp.fptr == old(fp.fptr) + wcnt
    ensures fp.contents == Patched(old(fp.contents), old(fp.fptr), data[o..o + wcnt])
  {
    hide Fatfs.Valid, FatGeo, DataGeo, ChainOk, ChainOn, Avail, BufferOk, Holds, ClusterIs, SectorIs, CursorAt, Splice;
    hide Patched;
    var fs := fp.fs;
    ghost var buf, contents := fp.buf[..], fp.contents;
    var at := fp.fptr;
    wcnt := 512 - at % 512;
    if wcnt > btw {
      wcnt := btw;
    }
    ghost var p := data[o..o + wcnt];
    CopyIn(fp.buf, at % 512, data[o..o + wcnt]);
    PartFacts(fs.geo, fs.fat, fp.chain, fp.sclust, fs.disk, buf, fp.buf[..], fp.dsect, fp.dirty, fp.growing, contents,
      at, p);
    fp.dirty := true;
    fp.growing := false;
    fp.contents := Patched(contents, at, p);
    CursorMovesInside(fs.geo, fp.chain, at, wcnt, fp.clust, fp.dsect, |fp.contents|);
    fp.fptr := at + wcnt;
  }

  /** mem_cpy into the sector buffer. */
  method CopyIn(buf: array<byte>, o: nat, p: seq<byte>)
    requires o + |p| <= buf.Length
    modifies buf
    ensures buf[..] == Splice(old(buf[..]), o, p)
  {
    forall i | o <= i < o + |p| {
      buf[i] := p[i - o];
    }
  }

  /** Whole sectors written directly, up to the end of the cluster; the file pointer moves behind them. */
  method WriteSectors(fp: Fil, data: seq<byte>, o: nat, btw: nat, sect: nat, csect: nat) returns (wcnt: nat)
    requires fp.Stable() && !fp.dirty && !fp.growing && AtSector(fp.fs.geo, fp.chain, fp.fptr, fp.clust, sect, csect)
    requires 512 <= btw && o + btw <= |data| && fp.fptr <= |fp.contents| < 0x1_0000_0000
    requires fp.fptr + btw < 0x1_0000_0000
    modifies fp.fs`disk, fp.fs`logical, fp`fptr, fp`dirty, fp`contents, fp.buf
    ensures fp.Stable() && fp.Cursor()
    ensures 0 < wcnt <= btw && fp.fptr == old(fp.fptr) + wcnt
    ensures fp.contents == Patched(old(fp.contents), old(fp.fptr), data[o..o + wcnt])
    ensures Elsewhere(fp.fs.geo, fp.chain, old(fp.fs.logical), fp.fs.logical)
  {
    hide Fil.Stable, FatGeo, DataGeo, ChainOk, ChainOn, AtSector, CursorAt, Elsewhere;
    var cc := btw / 512;
    if csect + cc > fp.fs.geo.csize {
      cc := fp.fs.geo.csize - csect;
    }
    wcnt := 512 * cc;
    WriteDirect(fp, data[o..o + wcnt], sect, csect, cc);
    CursorMovesSectors(fp.fs.geo, fp.chain, fp.fptr, fp.clust, sect, csect, cc, fp.dsect, |fp.contents|);
    fp.fptr := fp.fptr + wcnt;
  }

  /** The transfer of one round that starts on a sector boundary. */
  method WriteEntered(fp: Fil, data: seq<byte>, o: nat, btw: nat, sect: nat, csect: nat) returns (wcnt: nat)
    requires fp.Stable() && !fp.dirty && !fp.growing && AtSector(fp.fs.geo, fp.chain, fp.fptr, fp.clust, sect, csect)
    requires 0 < btw && o + btw <= |data| && fp.fptr <= |fp.contents| < 0x1_0000_0000
    requires fp.fptr + btw < 0x1_0000_0000
    requires fp.fptr < fp.fsize <==> fp.fptr < |fp.contents|
    modifies fp.fs`disk, fp.fs`logical, fp`fptr, fp`dirty, fp`dsect, fp`growing, fp`contents, fp.buf
    ensures fp.Stable() && fp.Cursor() && !fp.growing
    ensures 0 < wcnt <= btw && fp.fptr == old(fp.fptr) + wcnt
    ensures fp.contents == Patched(old(fp.contents), old(fp.fptr), data[o..o + wcnt])
    ensures Elsewhere(fp.fs.geo, fp.chain, old(fp.fs.logical), fp.fs.logical)
  {
    hide Fil.Stable, FatGeo, DataGeo, ChainOk, ChainOn, AtSector, SectorIs, ClusterIs, CursorAt, Elsewhere;
    if btw / 512 > 0 {
      wcnt := WriteSectors(fp, data, o, btw, sect, csect);
    } else {
      ElsewhereRefl(fp.fs.geo, fp.chain, fp.fs.logical);
      PrepareBuffer(fp, sect, csect);
      wcnt := WritePart(fp, data, o, btw);
    }
  }

  /** One round of the transfer loop on a sector boundary; 0 when there is no cluster to continue in, or a broken
      entry. */
  method WriteAtBoundary(fp: Fil, data: seq<byte>, o: nat, btw: nat) returns (wcnt: nat, broken: bool)
    requires fp.fptr % 512 == 0
    requires fp.Stable() && fp.Cursor() && !fp.growing && fp.MapUsable()
    requires 0 < btw && o + btw <= |data| && fp.fptr + btw < 0x1_0000_0000
    requires |fp.contents| == if fp.fptr > fp.fsize then fp.fptr else fp.fsize
    modifies fp.fs`disk, fp.fs`logical, fp.fs`fat, fp.fs`wflag, fp.fs`winsect, fp.fs`lastClust, fp.fs`freeClust
    modifies fp.fs`fsiDirty, fp.fs.win, fp`chain, fp`sclust, fp`clust, fp`dirty, fp`dsect, fp`growing, fp`contents
    modifies fp`fptr, fp.buf
    ensures fp.Stable() && fp.Cursor() && !fp.growing
    ensures wcnt <= btw && fp.fptr == old(fp.fptr) + wcnt
    ensures fp.contents == Patched(old(fp.contents), old(fp.fptr), data[o..o + wcnt])
    ensures wcnt == 0 ==> Stuck(fp, broken)
    ensures Elsewhere(fp.fs.geo, fp.chain, old(fp.fs.logical), fp.fs.logical)
    ensures Grown(old(fp.fs.fat), fp.fs.fat, old(fp.chain), fp.chain) && GrownFor(fp, old(fp.chain), fp.fptr)
    ensures old(FreeExact(fp.fs)) ==> FreeExact(fp.fs)
  {
    hide Fil.Stable, FatGeo, DataGeo, ChainOk, ChainOn, SectorIs, ClusterIs, CursorAt, AtSector, Elsewhere, Grown;
    hide Stuck, FreeExact, Patched;
    hide GrownBy;
    var ok, sect, csect;
    ghost var ch, at := fp.chain, fp.fptr;
    GrownByRefl(fp.fs.geo, ch, at, fp.cltbl != null);
    ok, broken, sect, csect := EnterWriteSector(fp);
    if !ok {
      PatchedNothing(fp.contents, fp.fptr);
      assert data[o..o] == [];
      return 0, broken;
    }
    ghost var logical := fp.fs.logical;
    wcnt := WriteEntered(fp, data, o, btw, sect, csect);
    GrownByRefl(fp.fs.geo, fp.chain, fp.fptr, fp.cltbl != null);
    GrownByTrans(fp.fs.geo, ch, fp.chain, fp.chain, at + 1, fp.fptr, fp.cltbl != null);
    ElsewhereTrans(fp.fs.geo, fp.chain, fp.chain, old(fp.fs.logical), logical, fp.fs.logical);
  }

  /** One round of the transfer loop; 0 when there is no cluster to continue in, or a broken entry. */
  method WriteStep(fp: Fil, data: seq<byte>, o: nat, btw: nat) returns (wcnt: nat, broken: bool)
    requires fp.Stable() && fp.Cursor() && !fp.growing && fp.MapUsable()
    requires 0 < btw && o + btw <= |data| && fp.fptr + btw < 0x1_0000_0000
    requires |fp.contents| == if fp.fptr > fp.fsize then fp.fptr else fp.fsize
    modifies fp.fs`disk, fp.fs`logical, fp.fs`fat, fp.fs`wflag, fp.fs`winsect, fp.fs`lastClust, fp.fs`freeClust
    modifies fp.fs`fsiDirty, fp.fs.win, fp`chain, fp`sclust, fp`clust, fp`dirty, fp`dsect, fp`growing, fp`contents
    modifies fp`fptr, fp.buf
    ensures fp.Stable() && fp.Cursor() && !fp.growing
    ensures wcnt <= btw && fp.fptr == old(fp.fptr) + wcnt
    ensures fp.contents == Patched(old(fp.contents), old(fp.fptr), data[o..o + wcnt])
    ensures wcnt == 0 ==> Stuck(fp, broken)
    ensures Elsewhere(fp.fs.geo, fp.chain, old(fp.fs.logical), fp.fs.logical)
    ensures Grown(old(fp.fs.fat), fp.fs.fat, old(fp.chain), fp.chain) && GrownFor(fp, old(fp.chain), fp.fptr)
    ensures old(FreeExact(fp.fs)) ==> FreeExact(fp.fs)
  {
    hide Fil.Stable, Fil.Cursor, Elsewhere, Grown, Stuck, FreeExact, Patched, ClusterIs, SectorIs;
    broken := false;
    if fp.fptr % 512 == 0 {
      wcnt, broken := WriteAtBoundary(fp, data, o, btw);
    } else {
      InsideSector(fp);
      ElsewhereRefl(fp.fs.geo, fp.chain, fp.fs.logical);
      GrownRefl(fp.fs.fat, fp.chain);
      wcnt := WritePart(fp, data, o, btw);
    }
  }

  lemma InsideSector(fp: Fil)
    requires fp.Stable() && fp.Cursor() && fp.fptr % 512 != 0
    ensures fp.fptr <= |fp.contents| < 0x1_0000_0000
    ensures ClusterIs(fp.fs.geo, fp.chain, fp.fptr, fp.clust) && SectorIs(fp.fs.geo, fp.chain, fp.fptr / 512, fp.dsect)
  {
    hide Fil.Stable, SectorIs, ClusterIs;
    CursorInside(fp.fs.geo, fp.chain, fp.fptr, fp.clust, fp.dsect, |fp.contents|);
  }

  /** f_write: writes `data` over the file at the file pointer, extending file and chain as far as needed. It
      writes less only when no cluster can be had, and nothing when the file would reach 4 GB. When the search for a
      cluster meets an entry holding 1 it is aborted, with the bytes written so far. */
  method FWrite(fp: Fil, data: seq<byte>) returns (res: FResult, bw: nat)
    requires fp.Open() && (fp.err == FrOk ==> fp.MapUsable()) && |data| < 0x1_0000_0000
    modifies fp.fs`disk, fp.fs`logical, fp.fs`fat, fp.fs`wflag, fp.fs`winsect, fp.fs`lastClust, fp.fs`freeClust
    modifies fp.fs`fsiDirty, fp.fs.win, fp`chain, fp`sclust, fp`clust, fp`dirty, fp`dsect, fp`growing, fp`contents
    modifies fp`fptr, fp.buf
    modifies fp`fsize, fp`written, fp`err
    ensures fp.Open() && bw <= |data| && fp.fptr == old(fp.fptr) + bw
    ensures old(fp.err) != FrOk ==> res == fp.err && bw == 0 && unchanged(fp, fp.buf, fp.fs, fp.fs.win)
    ensures old(fp.err) == FrOk && !fp.canWrite ==> res == FrDenied && fp.err == FrOk && bw == 0
    ensures old(fp.err) == FrOk && fp.canWrite ==>
              res == fp.err
              && (res == FrOk || (res == FrIntErr && !Unbroken(old(fp.fs.fat))))
    ensures old(fp.fptr) + |data| >= 0x1_0000_0000 ==> bw == 0
    ensures bw == 0 ==> fp.contents == old(fp.contents)
    ensures old(fp.err) == FrOk ==>
              old(fp.fptr) <= |old(fp.contents)|
              && fp.contents == Patched(old(fp.contents), old(fp.fptr), data[..bw])
    ensures res == FrOk && old(fp.fptr) + |data| < 0x1_0000_0000 && bw < |data| ==> NoCluster(fp)
    ensures res == FrOk ==> fp.written
    ensures Elsewhere(fp.fs.geo, fp.chain, old(fp.fs.logical), fp.fs.logical)
    ensures Grown(old(fp.fs.fat), fp.fs.fat, old(fp.chain), fp.chain) && GrownFor(fp, old(fp.chain), fp.fptr)
    ensures old(FreeExact(fp.fs)) ==> FreeExact(fp.fs)
  {
    hide Fil.Stable, FatGeo, DataGeo, ChainOk, ChainOn, SectorIs, ClusterIs, CursorAt, Elsewhere, Grown, NoCluster;
    hide FreeExact, Patched, Unbroken;
    ElsewhereRefl(fp.fs.geo, fp.chain, fp.fs.logical);
    GrownRefl(fp.fs.fat, fp.chain);
    bw := 0;
    assert data[..0] == [];
    if fp.err != FrOk {
      return fp.err, 0;
    }
    CursorRange(fp);
    PatchedNothing(fp.contents, fp.fptr);
    if !fp.canWrite {
      return FrDenied, 0;
    }
    res := FrOk;
    var btw: nat := |data|;
    if (fp.fptr + btw) % 0x1_0000_0000 < fp.fptr {
      btw := 0;
    }
    var broken;
    ghost var fat, ch := fp.fs.fat, fp.chain;
    bw, broken := WriteLoop(fp, data, btw);
    if broken {
      StillUnbroken(fp, fat, ch);
      if fp.sclust == 0 {
        fp.sclust := 1;
      }
      fp.err := FrIntErr;
      return FrIntErr, bw;
    }
    if fp.fptr > fp.fsize {
      fp.fsize := fp.fptr;
    }
    fp.written := true;
  }

  lemma StillUnbroken(fp: Fil, fat: seq<nat>, ch: seq<nat>)
    requires fp.Stable() && Grown(fat, fp.fs.fat, ch, fp.chain)
    ensures Unbroken(fat) ==> Unbroken(fp.fs.fat)
  {
    hide Fil.Stable, IsChain, Unbroken;
    GrownUnbroken(fat, fp.fs.fat, ch, fp.chain);
  }

  lemma CursorRange(fp: Fil)
    requires fp.Valid()
    ensures fp.fptr <= |fp.contents| < 0x1_0000_0000
  {
    hide Fil.Stable;
  }

  /** The transfer loop of f_write. */
  method WriteLoop(fp: Fil, data: seq<byte>, n: nat) returns (bw: nat, broken: bool)
    requires fp.Stable() && fp.Cursor() && !fp.growing && fp.MapUsable()
    requires n <= |data| && fp.fptr + n < 0x1_0000_0000 && |fp.contents| == fp.fsize
    modifies fp.fs`disk, fp.fs`logical, fp.fs`fat, fp.fs`wflag, fp.fs`winsect, fp.fs`lastClust, fp.fs`freeClust
    modifies fp.fs`fsiDirty, fp.fs.win, fp`chain, fp`sclust, fp`clust, fp`dirty, fp`dsect, fp`growing, fp`contents
    modifies fp`fptr, fp.buf
    ensures fp.Stable() && fp.Cursor() && !fp.growing && fp.fsize == old(fp.fsize) && fp.err == old(fp.err)
    ensures fp.cltbl == old(fp.cltbl) && fp.mapOk == old(fp.mapOk) && fp.mapOf == old(fp.mapOf)
            && fp.fs.geo == old(fp.fs.geo)
    ensures bw <= n && fp.fptr == old(fp.fptr) + bw
    ensures fp.contents == Patched(old(fp.contents), old(fp.fptr), data[..bw])
    ensures (bw == n ==> !broken) && (bw < n ==> Stuck(fp, broken))
    ensures Elsewhere(fp.fs.geo, fp.chain, old(fp.fs.logical), fp.fs.logical)
    ensures Grown(old(fp.fs.fat), fp.fs.fat, old(fp.chain), fp.chain) && GrownFor(fp, old(fp.chain), fp.fptr)
    ensures old(FreeExact(fp.fs)) ==> FreeExact(fp.fs)
  {
    hide Fil.Stable, FatGeo, DataGeo, ChainOk, ChainOn, CursorAt, Progress, Stuck, FreeExact;
    ghost var c0, at0, fat0, ch0, l0 := fp.contents, fp.fptr, fp.fs.fat, fp.chain, fp.fs.logical;
    bw, broken := 0, false;
    ProgressStarts(fp, data);
    while bw < n
      invariant fp.Stable() && fp.Cursor() && !fp.growing && fp.MapUsable() && !broken
      invariant bw <= n && fp.fptr == at0 + bw
      invariant Progress(fp, data, bw, c0, at0, fat0, ch0, l0)
      invariant old(FreeExact(fp.fs)) ==> FreeExact(fp.fs)
    {
      var wcnt;
      wcnt, broken := WriteRound(fp, data, bw, n - bw, c0, at0, fat0, ch0, l0);
      bw := bw + wcnt;
      if wcnt == 0 {
        break;
      }
      broken := false;
    }
    ProgressMeans(fp, data, bw, c0, at0, fat0, ch0, l0);
  }

  /** What f_write has done after `bw` bytes, compared to the file and the drive it started with. */
  ghost predicate Progress(fp: Fil, data: seq<byte>, bw: nat, c0: seq<byte>, at0: nat, fat0: seq<nat>, ch0: seq<nat>,
                           l0: seq<Sector>)
    reads fp`contents, fp`fptr, fp`fsize, fp`chain, fp`cltbl, fp.fs`fat, fp.fs`logical, fp.fs`geo
  {
    && bw <= |data| && at0 <= |c0|
    && |fp.contents| == (if fp.fptr > fp.fsize then fp.fptr else fp.fsize)
    && fp.contents == Patched(c0, at0, data[..bw])
    && Elsewhere(fp.fs.geo, fp.chain, l0, fp.fs.logical)
    && Grown(fat0, fp.fs.fat, ch0, fp.chain) && GrownFor(fp, ch0, fp.fptr)
  }

  lemma ProgressStarts(fp: Fil, data: seq<byte>)
    requires fp.fptr <= |fp.contents| == fp.fsize
    ensures Progress(fp, data, 0, fp.contents, fp.fptr, fp.fs.fat, fp.chain, fp.fs.logical)
  {
    PatchedNothing(fp.contents, fp.fptr);
    assert data[..0] == [];
  }

  lemma ProgressMeans(fp: Fil, data: seq<byte>, bw: nat, c0: seq<byte>, at0: nat, fat0: seq<nat>, ch0: seq<nat>,
                      l0: seq<Sector>)
    requires Progress(fp, data, bw, c0, at0, fat0, ch0, l0)
    ensures bw <= |data| && at0 <= |c0| && fp.contents == Patched(c0, at0, data[..bw])
    ensures Elsewhere(fp.fs.geo, fp.chain, l0, fp.fs.logical) && Grown(fat0, fp.fs.fat, ch0, fp.chain)
            && GrownFor(fp, ch0, fp.fptr)
  {
  }

  /** A round of the loop carries the comparison on. */
  method WriteRound(fp: Fil, data: seq<byte>, bw: nat, btw: nat,
                    ghost c0: seq<byte>, ghost at0: nat, ghost fat0: seq<nat>, ghost ch0: seq<nat>,
                      ghost l0: seq<Sector>)
    returns (wcnt: nat, broken: bool)
    requires fp.Stable() && fp.Cursor() && !fp.growing && fp.MapUsable()
    requires 0 < btw && bw + btw <= |data| && fp.fptr == at0 + bw && fp.fptr + btw < 0x1_0000_0000
    requires Progress(fp, data, bw, c0, at0, fat0, ch0, l0)
    modifies fp.fs`disk, fp.fs`logical, fp.fs`fat, fp.fs`wflag, fp.fs`winsect, fp.fs`lastClust, fp.fs`freeClust
    modifies fp.fs`fsiDirty, fp.fs.win, fp`chain, fp`sclust, fp`clust, fp`dirty, fp`dsect, fp`growing, fp`contents
    modifies fp`fptr, fp.buf
    ensures fp.Stable() && fp.Cursor() && !fp.growing
    ensures wcnt <= btw && fp.fptr == at0 + bw + wcnt
    ensures Progress(fp, data, bw + wcnt, c0, at0, fat0, ch0, l0)
    ensures wcnt == 0 ==> Stuck(fp, broken)
    ensures old(FreeExact(fp.fs)) ==> FreeExact(fp.fs)
  {
    hide Fil.Stable, FatGeo, DataGeo, ChainOk, ChainOn, CursorAt, Elsewhere, Grown, Stuck, FreeExact, Patched, GrownBy;
    ghost var logical, fat, ch, first := fp.fs.logical, fp.fs.fat, fp.chain, fp.sclust;
    ghost var at := fp.fptr;
    wcnt, broken := WriteStep(fp, data, bw, btw);
    KeptAlong(fp.fs.geo, fat0, fat, fp.fs.fat, ch0, ch, fp.chain, first, l0, logical, fp.fs.logical);
    GrownByTrans(fp.fs.geo, ch0, ch, fp.chain, at, fp.fptr, fp.cltbl != null);
    PatchedTwice(c0, at0, data[..bw], data[bw..bw + wcnt]);
    assert data[..bw] + data[bw..bw + wcnt] == data[..bw + wcnt];
  }
}
