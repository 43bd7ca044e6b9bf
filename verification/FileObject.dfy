/** The file object and the steps its operations share: following and stretching the chain, the sector buffer. */
module FileObject {
  import opened Bytes
  import opened Geometry
  import opened Volume
  import opened FatAccess
  import opened Chains
  import opened ClusterAlloc
  import opened DataArea
  import opened LinkMap

  /** The chain that starts at `sclust` (0: none). */
  ghost predicate ChainOk(fat: seq<nat>, ch: seq<nat>, sclust: nat) {
    && (sclust == 0 <==> ch == [])
    && (ch != [] ==> IsChain(fat, ch) && ch[0] == sclust)
  }

  /** The drive with a dirty sector buffer laid over it. */
  ghost function ViewOf(d: seq<Sector>, buf: Sector, dsect: nat, dirty: bool): (v: seq<Sector>)
    ensures |v| == |d|
  {
    if dirty && dsect < |d| then d[dsect := buf] else d
  }

  /** The sector buffer: dirty over a sector of the file, or equal to its sector, or (`growing`) not yet filled. */
  ghost predicate BufferOk(g: Geo, fat: seq<nat>, ch: seq<nat>, d: seq<Sector>, buf: Sector, dsect: nat, dirty: bool,
                           growing: bool) {
    && (dsect != 0 ==> Avail(g, fat, ch, dsect) && dsect < |d|)
    && (dirty ==> dsect != 0 && Owned(g, ch, dsect))
    && (dsect != 0 && !dirty && !growing ==> buf == d[dsect])
    && (growing ==> !dirty && dsect != 0)
  }

  class Fil {
    const fs: Fatfs
    const canRead: bool      // FA_READ
    const canWrite: bool     // FA_WRITE
    var written: bool        // FA__WRITTEN
    var dirty: bool          // FA__DIRTY
    var err: FResult         // abort flag
    var fptr: nat            // file pointer
    var fsize: nat           // file size
    var sclust: nat          // start cluster, 0: none
    var clust: nat           // current cluster
    var dsect: nat           // sector in the buffer, 0: none
    var dirSect: nat         // sector of the directory entry
    var dirOffset: nat       // offset of the entry in that sector
    var cltbl: array?<nat>   // cluster link map table, null: normal seek; attached by the application
    const buf: array<byte>   // sector buffer
    ghost var chain: seq<nat>      // the clusters of the file
    ghost var contents: seq<byte>  // the bytes of the file
    ghost var growing: bool        // the buffer stands for a sector behind the data and is not filled yet
    ghost var mapOk: bool          // the attached table has been filled and is up to date with `mapOf`
    ghost var mapOf: seq<nat>      // the clusters it was filled with

    /** f_open on an existing entry. */
    constructor (volume: Fatfs, first: nat, size: nat, read: bool, write: bool, ghost clusters: seq<nat>,
      ghost bytes: seq<byte>)
      requires volume.Valid() && volume.freeClust < 0x1_0000_0000 && DataGeo(volume.geo, |volume.disk|)
      requires ChainOk(volume.fat, clusters, first) && !Avail(volume.geo, volume.fat, clusters, volume.winsect)
      requires size < 0x1_0000_0000 && |bytes| == size && Holds(volume.geo, clusters, volume.disk, bytes)
      ensures Valid() && fresh(buf) && fs == volume && canRead == read && canWrite == write
      ensures contents == bytes && chain == clusters && fptr == 0 && fsize == size && err == FrOk && cltbl == null
    {
      fs, canRead, canWrite := volume, read, write;
      written, dirty, err := false, false, FrOk;
      fptr, fsize, sclust, clust, dsect := 0, size, first, 0, 0;
      dirSect, dirOffset, cltbl := 0, 0, null;
      buf := new byte[512](_ => 0);
      chain, contents, growing, mapOk, mapOf := clusters, bytes, false, false, [];
    }

    ghost function View(): seq<Sector>
      requires buf.Length == 512
      reads this`dirty, this`dsect, fs`disk, buf
    {
      ViewOf(fs.disk, buf[..], dsect, dirty)
    }

    /** What holds at every step of every operation, wherever the file pointer is. */
    ghost predicate Stable()
      reads this`dirty, this`sclust, this`dsect, this`cltbl, this`chain, this`contents, this`growing, this`mapOk,
        this`mapOf
      reads cltbl, buf
      reads fs`geo, fs`disk, fs`fat, fs`logical, fs`winsect, fs`wflag, fs`freeClust, fs.win
      ensures Stable() ==> fs.Valid() && fs.freeClust < 0x1_0000_0000 && DataGeo(fs.geo, |fs.disk|)
      ensures Stable() ==>
                buf.Length == 512 && buf != fs.win && ChainOk(fs.fat, chain, sclust)
                && ChainOn(fs.geo, chain)
      ensures Stable() ==> fs.geo.csize > 0 && |fs.fat| >= 3
    {
      && fs.Valid() && fs.freeClust < 0x1_0000_0000 && DataGeo(fs.geo, |fs.disk|)
      && buf.Length == 512 && buf != fs.win
      && ChainOk(fs.fat, chain, sclust)
      && !Avail(fs.geo, fs.fat, chain, fs.winsect)
      && BufferOk(fs.geo, fs.fat, chain, fs.disk, buf[..], dsect, dirty, growing)
      && Holds(fs.geo, chain, View(), contents)
      && MapGood()
    }

    /** The table, once filled, maps the first clusters of the chain. */
    ghost predicate MapGood()
      reads this`cltbl, this`chain, this`mapOk, this`mapOf, cltbl
    {
      cltbl != null && mapOk ==> MapsChain(cltbl[..], mapOf) && mapOf <= chain
    }

    /** A link map, if attached, may be used: it was filled, with the first clusters of the chain at least. */
    ghost predicate MapUsable()
      reads this`cltbl, this`mapOk
    {
      cltbl != null ==> mapOk
    }

    /** The cursor: where it is, and that cluster and buffer are those of the byte it stands on. */
    ghost predicate Cursor()
      reads this`fptr, this`clust, this`dsect, this`chain, this`contents, fs`geo
    {
      CursorAt(fs.geo, chain, fptr, clust, dsect, |contents|)
    }

    /** The invariant of an open file between operations. */
    ghost predicate Valid()
      reads this, cltbl, buf
      reads fs`geo, fs`disk, fs`fat, fs`logical, fs`winsect, fs`wflag, fs`freeClust, fs.win
    {
      Stable() && Cursor() && |contents| == fsize && !growing
    }

    /** The same with a cursor that may be wrong when an operation was aborted; then the abort flag is set. */
    ghost predicate Sound()
      reads this, cltbl, buf
      reads fs`geo, fs`disk, fs`fat, fs`logical, fs`winsect, fs`wflag, fs`freeClust, fs.win
    {
      Stable() && |contents| == fsize < 0x1_0000_0000 && !growing && (err == FrOk ==> Cursor())
    }

    /** Any of it may be broken when an operation was aborted; then the abort flag is set. */
    ghost predicate Open()
      reads this, cltbl, buf
      reads fs`geo, fs`disk, fs`fat, fs`logical, fs`winsect, fs`wflag, fs`freeClust, fs.win
    {
      fs.Valid() && fs.freeClust < 0x1_0000_0000 && |fs.fat| >= 3 && (err == FrOk ==> Valid())
    }
  }

  // ----- what a step through the window leaves in place -----

  /** The physical drive shows the logical contents of every sector a file can own. */
  lemma AvailAgrees(fs: Fatfs, ch: seq<nat>)
    requires fs.Valid() && DataGeo(fs.geo, |fs.disk|) && !Avail(fs.geo, fs.fat, ch, fs.winsect)
    ensures forall s: nat | s < |fs.disk| && Avail(fs.geo, fs.fat, ch, s) :: fs.disk[s] == fs.logical[s]
  {
    hide Fatfs.Valid, Avail;
    forall s: nat | s < |fs.disk| && Avail(fs.geo, fs.fat, ch, s) ensures fs.disk[s] == fs.logical[s] {
      AvailOutside(fs.geo, |fs.disk|, fs.fat, ch, s);
      WindowHidesOneSector(fs, s);
    }
  }

  lemma AvailOutside(g: Geo, total: nat, fat: seq<nat>, ch: seq<nat>, s: nat)
    requires FatGeo(g, total) && DataGeo(g, total) && Avail(g, fat, ch, s)
    ensures s >= FatEnd(g) && OutsideFats(g, s) && !InFirstFat(g, s)
  {
  }

  lemma OwnedAvail(g: Geo, fat: seq<nat>, ch: seq<nat>, sclust: nat, s: nat)
    requires ChainOk(fat, ch, sclust) && Owned(g, ch, s)
    ensures Avail(g, fat, ch, s)
  {
    var i :| 0 <= i < |ch| && ch[i] == OwnerOf(g, s);
    assert InTable(fat, ch[i]);
  }

  /** Bytes stay placed while the owned sectors keep their contents. */
  lemma HoldsKept(g: Geo, ch: seq<nat>, v: seq<Sector>, v': seq<Sector>, c: seq<byte>)
    requires FatGeo(g, |v|) && DataGeo(g, |v|) && ChainOn(g, ch) && |v'| == |v|
    requires Holds(g, ch, v, c)
    requires forall s: nat | s < |v| && Owned(g, ch, s) :: v'[s] == v[s]
    ensures Holds(g, ch, v', c)
  {
    hide FatGeo, DataGeo, SectorOf;
    forall i: nat | i < |c| ensures BytePlaced(g, ch, v', i, c[i]) {
      assert BytePlaced(g, ch, v, i, c[i]);
      SectorOfRange(g, |v|, ch, i / 512);
    }
  }

  /** A drive that kept every sector the file can own still fits its buffer and its bytes. */
  lemma DriveStep(g: Geo, fat: seq<nat>, ch: seq<nat>, sclust: nat, d: seq<Sector>, d': seq<Sector>,
                  buf: Sector, dsect: nat, dirty: bool, growing: bool, c: seq<byte>)
    requires FatGeo(g, |d|) && DataGeo(g, |d|) && ChainOk(fat, ch, sclust) && ChainOn(g, ch) && |d'| == |d|
    requires BufferOk(g, fat, ch, d, buf, dsect, dirty, growing) && Holds(g, ch, ViewOf(d, buf, dsect, dirty), c)
    requires forall s: nat | s < |d| && Avail(g, fat, ch, s) :: d'[s] == d[s]
    ensures BufferOk(g, fat, ch, d', buf, dsect, dirty, growing) && Holds(g, ch, ViewOf(d', buf, dsect, dirty), c)
  {
    hide FatGeo, DataGeo, Avail, Owned, Holds, ChainOk;
    var v, v' := ViewOf(d, buf, dsect, dirty), ViewOf(d', buf, dsect, dirty);
    forall s: nat | s < |d| && Owned(g, ch, s) ensures v'[s] == v[s] {
      OwnedAvail(g, fat, ch, sclust, s);
    }
    HoldsKept(g, ch, v, v', c);
  }

  /** get_fat on behalf of an open file. */
  method FollowChain(fp: Fil, clst: nat) returns (r: nat)
    requires fp.Stable()
    modifies fp.fs`disk, fp.fs`wflag, fp.fs`winsect, fp.fs.win
    ensures fp.Stable()
    ensures r == if InTable(fp.fs.fat, clst) then fp.fs.fat[clst] else 1
  {
    hide Fatfs.Valid, Avail, BufferOk, Holds, ChainOk, FatGeo, DataGeo;
    var fs := fp.fs;
    ghost var d := fs.disk;
    AvailAgrees(fs, fp.chain);
    r := GetFat(fs, clst);
    WindowStaysClear(fs.geo, |fs.disk|, fs.fat, fp.chain, old(fs.winsect), fs.winsect);
    AvailAgrees(fs, fp.chain);
    DriveStep(fs.geo, fs.fat, fp.chain, fp.sclust, d, fs.disk, fp.buf[..], fp.dsect, fp.dirty, fp.growing, fp.contents);
  }

  lemma WindowStaysClear(g: Geo, total: nat, fat: seq<nat>, ch: seq<nat>, w: nat, w': nat)
    requires FatGeo(g, total) && DataGeo(g, total) && !Avail(g, fat, ch, w)
    requires w' == w || InFirstFat(g, w')
    ensures !Avail(g, fat, ch, w')
  {
    if Avail(g, fat, ch, w') {
      AvailOutside(g, total, fat, ch, w');
    }
  }

  /** The chain after one free cluster was appended to it. */
  lemma StretchFacts(g: Geo, fat: seq<nat>, ch: seq<nat>, sclust: nat, ncl: nat, end: nat)
    requires ChainOk(fat, ch, sclust) && InTable(fat, ncl) && fat[ncl] == 0 && end >= |fat| && IsEndMark(end)
    requires ch != [] ==> fat[ch[|ch| - 1]] >= |fat|
    ensures var last := if ch == [] then 0 else ch[|ch| - 1];
            var fat' := Linked(fat, last, ncl, end);
            && ChainOk(fat', ch + [ncl], if ch == [] then ncl else sclust)
            && Grown(fat, fat', ch, ch + [ncl])
            && FreeCount(fat') == FreeCount(fat) - 1
            && (forall s :: Avail(g, fat', ch + [ncl], s) <==> Avail(g, fat, ch, s))
  {
    var last := if ch == [] then 0 else ch[|ch| - 1];
    var fat' := Linked(fat, last, ncl, end);
    ZerosUpdate(fat, 2, |fat|, ncl, end);
    if ch == [] {
      assert IsChain(fat', [ncl]);
      assert ch + [ncl] == [ncl];
    } else {
      StretchedChain(fat, ch, ncl, end);
      ZerosUpdate(fat[ncl := end], 2, |fat|, last, ncl);
      assert last in ch;
    }
  }

  lemma LongerChainHolds(g: Geo, ch: seq<nat>, ch': seq<nat>, v: seq<Sector>, c: seq<byte>)
    requires Holds(g, ch, v, c) && ch <= ch'
    ensures Holds(g, ch', v, c)
  {
    hide SectorOf;
    forall i: nat | i < |c| ensures BytePlaced(g, ch', v, i, c[i]) {
      assert BytePlaced(g, ch, v, i, c[i]);
      SectorOfPrefix(g, ch, ch', i / 512);
    }
  }

  lemma SectorOfPrefix(g: Geo, ch: seq<nat>, ch': seq<nat>, k: nat)
    requires g.csize > 0 && k / g.csize < |ch| && ch[k / g.csize] >= 2 && ch <= ch'
    ensures k / g.csize < |ch'| && ch'[k / g.csize] == ch[k / g.csize]
    ensures SectorOf(g, ch', k) == SectorOf(g, ch, k)
  {
    hide ClusterSector;
    var q := k / g.csize;
    assert ch'[q] == ch[q];
  }

  /** A file with chain `ch'` can own the sectors that one with chain `ch` could. */
  ghost predicate SameAvail(g: Geo, fat: seq<nat>, ch: seq<nat>, fat': seq<nat>, ch': seq<nat>) {
    forall s :: Avail(g, fat', ch', s) <==> Avail(g, fat, ch, s)
  }

  /** Drive `d` shows what drive `l` has in the sectors a file can own. */
  ghost predicate Faithful(g: Geo, fat: seq<nat>, ch: seq<nat>, d: seq<Sector>, l: seq<Sector>) {
    |l| == |d| && forall s: nat | s < |d| && Avail(g, fat, ch, s) :: d[s] == l[s]
  }

  /** create_chain behind cluster `q` of a chain: its successor, allocated when there is none yet; 0 on a full volume,
      1 when a broken entry is met in the search. */
  method ExtendChain(fs: Fatfs, clst: nat, ghost ch: seq<nat>, ghost first: nat, ghost q: int)
    returns (ncl: nat, ghost ch': seq<nat>)
    requires fs.Valid() && fs.freeClust < 0x1_0000_0000 && ChainOk(fs.fat, ch, first)
    requires if ch == [] then q == -1 && clst == 0 else 0 <= q < |ch| && clst == ch[q]
    modifies fs`disk, fs`logical, fs`fat, fs`wflag, fs`winsect, fs`lastClust, fs`freeClust, fs`fsiDirty, fs.win
    ensures fs.Valid() && fs.freeClust < 0x1_0000_0000 && SameOutsideFats(fs.geo, old(fs.logical), fs.logical)
    ensures fs.winsect == old(fs.winsect) || InFirstFat(fs.geo, fs.winsect)
    ensures ChainOk(fs.fat, ch', if clst == 0 && ncl >= 2 then ncl else first) && Grown(old(fs.fat), fs.fat, ch, ch')
    ensures q + 1 < |ch| ==> ncl == ch'[q + 1] >= 2 && ch' == ch
    ensures q + 1 == |ch| && ncl >= 2 ==> ch' == ch + [ncl]
    ensures q + 1 == |ch| && ncl == 0 ==> ch' == ch && FreeCount(fs.fat) == 0 && fs.fat == old(fs.fat)
    ensures q + 1 == |ch| && ncl == 1 ==> ch' == ch && !Unbroken(fs.fat) && fs.fat == old(fs.fat)
    ensures SameAvail(fs.geo, old(fs.fat), ch, fs.fat, ch')
    ensures old(FreeExact(fs)) ==> FreeExact(fs)
  {
    hide Fatfs.Valid, Avail, SameOutsideFats, PassedOver, SearchOrder, FreeCount, ChainOk, IsChain, Grown, Linked;
    ghost var fat := fs.fat;
    ChainNext(fat, ch, first, q, clst);
    ncl := CreateChain(fs, clst);
    GrownRefl(fat, ch);
    ch' := ch;
    if q + 1 == |ch| && ncl >= 2 {
      StretchFacts(fs.geo, fat, ch, first, ncl, EndMark(fs.geo.fsType));
      ch' := ch + [ncl];
    } else if q + 1 == |ch| && ncl == 0 {
      NoneFree(fat);
    }
  }

  /** create_chain on behalf of an open file: cluster `q + 1` of the file, which becomes its first if it had none. */
  method StretchChain(fp: Fil, clst: nat, ghost q: int) returns (ncl: nat)
    requires fp.Stable()
    requires if fp.chain == [] then q == -1 && clst == 0 else 0 <= q < |fp.chain| && clst == fp.chain[q]
    modifies fp.fs`disk, fp.fs`logical, fp.fs`fat, fp.fs`wflag, fp.fs`winsect, fp.fs`lastClust, fp.fs`freeClust
    modifies fp.fs`fsiDirty, fp.fs.win, fp`chain, fp`sclust
    ensures fp.Stable() && SameOutsideFats(fp.fs.geo, old(fp.fs.logical), fp.fs.logical)
    ensures Grown(old(fp.fs.fat), fp.fs.fat, old(fp.chain), fp.chain)
    ensures q + 1 < |old(fp.chain)| ==> ncl == fp.chain[q + 1] >= 2 && fp.chain == old(fp.chain)
    ensures q + 1 == |old(fp.chain)| && ncl >= 2 ==> fp.chain == old(fp.chain) + [ncl]
    ensures q + 1 == |old(fp.chain)| && ncl == 0 ==> fp.chain == old(fp.chain) && FreeCount(fp.fs.fat) == 0
    ensures q + 1 == |old(fp.chain)| && ncl == 1 ==> fp.chain == old(fp.chain) && !Unbroken(fp.fs.fat)
    ensures old(FreeExact(fp.fs)) ==> FreeExact(fp.fs)
  {
    hide *;
    var fs := fp.fs;
    ghost var g, d, l, fat, ch, first, w := fs.geo, fs.disk, fs.logical, fs.fat, fp.chain, fp.sclust, fs.winsect;
    StableMeans(fp);
    ncl, fp.chain := ExtendChain(fs, clst, ch, first, q);
    if clst == 0 && ncl >= 2 {
      fp.sclust := ncl;
    }
    StableAgain(fp, fat, ch, first, d, l, w);
  }

  /** The parts of a file that is stable. */
  lemma StableMeans(fp: Fil)
    requires fp.Stable()
    ensures fp.fs.Valid() && FatGeo(fp.fs.geo, |fp.fs.disk|) && DataGeo(fp.fs.geo, |fp.fs.disk|)
    ensures fp.buf.Length == 512 && ChainOk(fp.fs.fat, fp.chain, fp.sclust) && ChainOn(fp.fs.geo, fp.chain)
    ensures !Avail(fp.fs.geo, fp.fs.fat, fp.chain, fp.fs.winsect) && fp.buf != fp.fs.win
    ensures Faithful(fp.fs.geo, fp.fs.fat, fp.chain, fp.fs.disk, fp.fs.logical)
    ensures BufferOk(fp.fs.geo, fp.fs.fat, fp.chain, fp.fs.disk, fp.buf[..], fp.dsect, fp.dirty, fp.growing)
    ensures Holds(fp.fs.geo, fp.chain, ViewOf(fp.fs.disk, fp.buf[..], fp.dsect, fp.dirty), fp.contents)
    ensures fp.cltbl != null && fp.mapOk ==> MapsChain(fp.cltbl[..], fp.mapOf) && fp.mapOf <= fp.chain
  {
    ValidSizes(fp.fs);
    hide Fatfs.Valid, FatGeo, DataGeo, ChainOk, Avail, BufferOk, Holds, ViewOf, MapsChain;
    AvailAgrees(fp.fs, fp.chain);
  }

  lemma ValidSizes(fs: Fatfs)
    requires fs.Valid()
    ensures FatGeo(fs.geo, |fs.disk|) && |fs.logical| == |fs.disk|
  {
  }

  /** A file whose chain grew is stable as it was before. */
  lemma StableAgain(fp: Fil, fat: seq<nat>, ch: seq<nat>, first: nat, d: seq<Sector>, l: seq<Sector>, w: nat)
    requires fp.fs.Valid() && fp.fs.freeClust < 0x1_0000_0000 && FatGeo(fp.fs.geo, |d|) && DataGeo(fp.fs.geo, |d|)
    requires fp.buf.Length == 512 && fp.buf != fp.fs.win && ChainOn(fp.fs.geo, ch)
    requires ChainOk(fat, ch, first) && Grown(fat, fp.fs.fat, ch, fp.chain) && ChainOk(fp.fs.fat, fp.chain, fp.sclust)
    requires SameAvail(fp.fs.geo, fat, ch, fp.fs.fat, fp.chain) && Faithful(fp.fs.geo, fat, ch, d, l)
    requires SameOutsideFats(fp.fs.geo, l, fp.fs.logical) && !Avail(fp.fs.geo, fat, ch, w)
    requires fp.fs.winsect == w || InFirstFat(fp.fs.geo, fp.fs.winsect)
    requires BufferOk(fp.fs.geo, fat, ch, d, fp.buf[..], fp.dsect, fp.dirty, fp.growing)
    requires Holds(fp.fs.geo, ch, ViewOf(d, fp.buf[..], fp.dsect, fp.dirty), fp.contents)
    requires fp.cltbl != null && fp.mapOk ==> MapsChain(fp.cltbl[..], fp.mapOf) && fp.mapOf <= ch
    ensures fp.Stable()
  {
    ValidSizes(fp.fs);
    SameSizes(fp.fs.geo, l, fp.fs.logical);
    hide Fatfs.Valid, FatGeo, DataGeo, ChainOk, Avail, BufferOk, Holds, ViewOf, MapsChain, InFirstFat, SameOutsideFats;
    WindowStaysClear(fp.fs.geo, |d|, fat, ch, w, fp.fs.winsect);
    AvailAgrees(fp.fs, fp.chain);
    AvailUnchanged(fp.fs.geo, fat, ch, d, l, fp.fs.disk, fp.fs.logical);
    DriveStep(fp.fs.geo, fat, ch, first, d, fp.fs.disk, fp.buf[..], fp.dsect, fp.dirty, fp.growing, fp.contents);
    LongerChainHolds(fp.fs.geo, ch, fp.chain, fp.View(), fp.contents);
    LongerChainBuffer(fp.fs.geo, fat, fp.fs.fat, ch, fp.chain, fp.fs.disk, fp.buf[..], fp.dsect, fp.dirty, fp.growing);
  }

  lemma SameSizes(g: Geo, l: seq<Sector>, l': seq<Sector>)
    requires SameOutsideFats(g, l, l')
    ensures |l'| == |l|
  {
  }

  /** A drive that agrees with the logical one on the sectors a file can own, before and after a step that
      leaves the logical sectors outside the FAT copies alone, keeps them. */
  lemma AvailUnchanged(g: Geo, fat: seq<nat>, ch: seq<nat>, d: seq<Sector>, l: seq<Sector>, d': seq<Sector>,
                       l': seq<Sector>)
    requires FatGeo(g, |d|) && DataGeo(g, |d|) && |d'| == |d| == |l| && SameOutsideFats(g, l, l')
    requires forall s: nat | s < |d| && Avail(g, fat, ch, s) :: d[s] == l[s]
    requires forall s: nat | s < |d'| && Avail(g, fat, ch, s) :: d'[s] == l'[s]
    ensures forall s: nat | s < |d| && Avail(g, fat, ch, s) :: d'[s] == d[s]
  {
    hide Avail, FatGeo, DataGeo;
    forall s: nat | s < |d| && Avail(g, fat, ch, s) ensures d'[s] == d[s] {
      AvailOutside(g, |d|, fat, ch, s);
    }
  }

  /** What create_chain finds at cluster `q` of a file's chain. */
  lemma ChainNext(fat: seq<nat>, ch: seq<nat>, sclust: nat, q: int, clst: nat)
    requires ChainOk(fat, ch, sclust)
    requires if ch == [] then q == -1 && clst == 0 else 0 <= q < |ch| && clst == ch[q]
    ensures (clst != 0 <==> ch != []) && (sclust != 0 <==> ch != [])
    ensures clst != 0 ==> InTable(fat, clst)
    ensures clst != 0 && q + 1 < |ch| ==> 2 <= fat[clst] < |fat| && fat[clst] == ch[q + 1]
    ensures clst != 0 && q + 1 == |ch| ==> fat[clst] >= |fat| && clst == ch[|ch| - 1]
  {
    if ch != [] {
      assert InTable(fat, ch[q]);
      if q + 1 < |ch| {
        assert fat[ch[q]] == ch[q + 1] && InTable(fat, ch[q + 1]);
      }
    }
  }

  lemma GrownRefl(fat: seq<nat>, ch: seq<nat>)
    ensures Grown(fat, fat, ch, ch)
  {
  }

  lemma NoneFree(fat: seq<nat>)
    requires |fat| >= 2 && forall c: nat | InTable(fat, c) :: fat[c] > 1
    ensures FreeCount(fat) == 0
  {
    ZerosNone(fat, 2, |fat|);
  }

  lemma LongerChainBuffer(g: Geo, fat: seq<nat>, fat': seq<nat>, ch: seq<nat>, ch': seq<nat>, d: seq<Sector>,
                          buf: Sector, dsect: nat, dirty: bool, growing: bool)
    requires BufferOk(g, fat, ch, d, buf, dsect, dirty, growing) && ch <= ch'
    requires forall s :: Avail(g, fat', ch', s) <==> Avail(g, fat, ch, s)
    ensures BufferOk(g, fat', ch', d, buf, dsect, dirty, growing)
  {
    assert forall c | c in ch :: c in ch';
  }

  /** What two steps of one file operation leave alone, both together leave alone. */
  lemma KeptAlong(g: Geo, fat: seq<nat>, fat': seq<nat>, fat'': seq<nat>, ch: seq<nat>, ch': seq<nat>, ch'': seq<nat>,
                  sclust': nat, d: seq<Sector>, d': seq<Sector>, d'': seq<Sector>)
    requires Grown(fat, fat', ch, ch') && Grown(fat', fat'', ch', ch'') && ChainOk(fat', ch', sclust')
    requires Elsewhere(g, ch', d, d') && Elsewhere(g, ch'', d', d'')
    ensures Grown(fat, fat'', ch, ch'') && Elsewhere(g, ch'', d, d'')
  {
    hide Elsewhere;
    GrownTrans(fat, fat', fat'', ch, ch', ch'');
    assert forall c | c in ch' :: c in ch'' by {
      assert forall i | 0 <= i < |ch'| :: ch'[i] == ch''[i];
    }
    ElsewhereTrans(g, ch', ch'', d, d', d'');
  }
}
