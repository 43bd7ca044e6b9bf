/** f_lseek: normal seek, link map creation and fast seek. */
module FileSeek {
  import opened Bytes
  import opened Geometry
  import opened Volume
  import opened Chains
  import opened ClusterAlloc
  import opened DataArea
  import opened LinkMap
  import opened FileObject
  import opened FileBuffer
  import opened FileRead
  import opened FileWrite

  // ----- arithmetic -----

  /** Dividing by the cluster size in bytes is dividing by the sector size and then by the sectors of a cluster. */
  lemma DivBcs(x: nat, c: nat)
    requires c > 0
    ensures x / (c * 512) == x / 512 / c
  {
    var q, r := x / 512 / c, x / 512 % c;
    assert x / 512 == q * c + r;
    var rest := r * 512 + x % 512;
    MulMonotone(r + 1, c, 512);
    assert x == q * (c * 512) + rest by {
      assert x == (q * c + r) * 512 + x % 512;
      assert (q * c) * 512 == q * (c * 512);
    }
    DivUnique(x, c * 512, q, rest);
  }

  /** Offset of the first byte of cluster `q` of a file. */
  function ClusterStart(g: Geo, q: nat): nat {
    q * (g.csize * 512)
  }

  lemma ClusterStartNext(g: Geo, q: nat)
    ensures ClusterStart(g, q + 1) == ClusterStart(g, q) + g.csize * 512
    ensures ClusterStart(g, 0) == 0 && g.csize * 512 % 512 == 0
  {
  }

  /** Seeking to the same or a following cluster starts from the current one, which does not start behind the target. */
  lemma SameOrFollowing(g: Geo, ifptr: nat, ofs: nat)
    requires g.csize > 0 && ifptr > 0 && ofs > 0
    ensures var q := (ifptr - 1) / (g.csize * 512);
            && q == (ifptr - 1) / 512 / g.csize
            && (ifptr - 1) - (ifptr - 1) % (g.csize * 512) == ClusterStart(g, q)
            && ((ofs - 1) / (g.csize * 512) >= q ==> ClusterStart(g, q) < ofs)
  {
    var bcs := g.csize * 512;
    var q := (ifptr - 1) / bcs;
    DivBcs(ifptr - 1, g.csize);
    DivLess(ofs - 1, bcs, q);
    assert ClusterStart(g, q) == q * bcs;
    hide *;
    assert (ifptr - 1) - (ifptr - 1) % bcs == q * bcs;
  }

  /** The cursor `ofs` bytes into cluster `q` of a chain, not beyond its end. */
  lemma SeekPosition(g: Geo, ch: seq<nat>, q: nat, ofs: nat)
    requires g.csize > 0 && q < |ch| && ch[q] >= 2 && 0 < ofs <= g.csize * 512
    ensures ClusterIs(g, ch, ClusterStart(g, q) + ofs - 1, ch[q])
    ensures ofs % 512 != 0 ==> SectorIs(g, ch, (ClusterStart(g, q) + ofs) / 512, ClusterSector(g, ch[q]) + ofs / 512)
    ensures (ClusterStart(g, q) + ofs) % 512 == ofs % 512
  {
    var bcs := g.csize * 512;
    DivUnique(q * bcs + ofs - 1, bcs, q, ofs - 1);
    DivBcs(q * bcs + ofs - 1, g.csize);
    var k := q * g.csize;
    assert q * bcs == k * 512;
    assert (k * 512 + ofs) / 512 == k + ofs / 512 && (k * 512 + ofs) % 512 == ofs % 512;
    if ofs % 512 != 0 {
      assert ofs / 512 < g.csize;
      DivUnique(k + ofs / 512, g.csize, q, ofs / 512);
    }
  }

  /** That many bytes need clusters up to number `q`. */
  lemma ReachedFor(g: Geo, q: nat, ofs: nat)
    requires g.csize > 0 && 0 < ofs <= g.csize * 512
    ensures ClustersFor(g, ClusterStart(g, q) + ofs) == q + 1
  {
    var bcs := g.csize * 512;
    DivUnique(q * bcs + ofs - 1, bcs, q, ofs - 1);
    DivBcs(q * bcs + ofs - 1, g.csize);
  }

  /** Bytes up to the end of cluster `q` have room on a chain that reaches it. */
  lemma RoomBelow(g: Geo, ch: seq<nat>, i: nat, at: nat, clust: nat)
    requires ClusterIs(g, ch, at, clust) && i <= at
    ensures i / 512 / g.csize < |ch|
  {
    assert i / 512 <= at / 512;
    DivMonotone(i / 512, at / 512, g.csize);
  }

  lemma DivMonotone(a: nat, b: nat, c: nat)
    requires a <= b && c > 0
    ensures a / c <= b / c
  {
    DivLess(a, c, b / c + 1);
    DivLess(b, c, b / c + 1);
  }

  // ----- normal seek -----

  /** The cluster after number `q` of the chain: stretched in write mode, 0 when the volume is full, 1 when the search
      for a cluster meets a broken entry. */
  method NextCluster(fp: Fil, clst: nat, ghost q: nat) returns (r: nat)
    requires fp.Stable() && fp.cltbl == null && q < |fp.chain| && clst == fp.chain[q]
    requires fp.canWrite || q + 1 < |fp.chain|
    modifies fp.fs`disk, fp.fs`logical, fp.fs`fat, fp.fs`wflag, fp.fs`winsect, fp.fs`lastClust, fp.fs`freeClust
    modifies fp.fs`fsiDirty, fp.fs.win, fp`chain, fp`sclust
    ensures fp.Stable() && Elsewhere(fp.fs.geo, fp.chain, old(fp.fs.logical), fp.fs.logical)
    ensures Grown(old(fp.fs.fat), fp.fs.fat, old(fp.chain), fp.chain)
    ensures r >= 2 ==> q + 1 < |fp.chain| && r == fp.chain[q + 1]
    ensures r < 2 ==> fp.chain == old(fp.chain) && q + 1 == |fp.chain|
    ensures |fp.chain| == |old(fp.chain)| || |fp.chain| == q + 2
    ensures (r == 0 ==> FreeCount(fp.fs.fat) == 0) && (r == 1 ==> !Unbroken(fp.fs.fat))
    ensures old(FreeExact(fp.fs)) ==> FreeExact(fp.fs)
  {
    hide Fil.Stable, FatGeo, DataGeo, ChainOn, Elsewhere, Grown, FreeExact, FreeCount, SameOutsideFats, Unbroken;
    if fp.canWrite {
      r := StretchChain(fp, clst, q);
      SameOutsideElsewhere(fp.fs.geo, fp.chain, old(fp.fs.logical), fp.fs.logical);
    } else {
      ElsewhereRefl(fp.fs.geo, fp.chain, fp.fs.logical);
      GrownRefl(fp.fs.fat, fp.chain);
      ChainNext(fp.fs.fat, fp.chain, fp.sclust, q, clst);
      r := FollowChain(fp, clst);
    }
  }

  /** The cluster following loop: from the start of cluster `q`, `ofs` bytes on. Answers the number of the
      cluster reached and how far into it; a full volume clips to its end, a broken entry aborts it. */
  method FollowClusters(fp: Fil, ofs: nat, ghost q: nat) returns (broken: bool, clst: nat, rest: nat, ghost q': nat)
    requires fp.Stable() && fp.cltbl == null && q < |fp.chain| && fp.clust == fp.chain[q]
    requires fp.fptr == ClusterStart(fp.fs.geo, q) && ofs > 0
    requires fp.canWrite || (fp.fptr + ofs - 1) / 512 / fp.fs.geo.csize < |fp.chain|
    modifies fp.fs`disk, fp.fs`logical, fp.fs`fat, fp.fs`wflag, fp.fs`winsect, fp.fs`lastClust, fp.fs`freeClust
    modifies fp.fs`fsiDirty, fp.fs.win, fp`chain, fp`sclust, fp`clust, fp`fptr
    ensures fp.Stable() && Elsewhere(fp.fs.geo, fp.chain, old(fp.fs.logical), fp.fs.logical)
    ensures Grown(old(fp.fs.fat), fp.fs.fat, old(fp.chain), fp.chain)
    ensures q' < |fp.chain| && fp.clust == fp.chain[q'] && fp.fptr == ClusterStart(fp.fs.geo, q')
    ensures !broken ==> 0 < rest <= fp.fs.geo.csize * 512 && fp.fptr + rest <= old(fp.fptr) + ofs
    ensures !broken ==> clst == fp.clust || rest % 512 == 0
    ensures !broken && fp.fptr + rest < old(fp.fptr) + ofs ==>
              fp.canWrite && rest == fp.fs.geo.csize * 512 && q' + 1 == |fp.chain| && FreeCount(fp.fs.fat) == 0
    ensures broken ==> !Unbroken(fp.fs.fat)
    ensures |fp.chain| == |old(fp.chain)| || |fp.chain| <= q' + 1
    ensures old(FreeExact(fp.fs)) ==> FreeExact(fp.fs)
  {
    hide Fil.Stable, FatGeo, DataGeo, ChainOk, ChainOn, Elsewhere, Grown, FreeExact, FreeCount, ClusterStart, Unbroken;
    ElsewhereRefl(fp.fs.geo, fp.chain, fp.fs.logical);
    GrownRefl(fp.fs.fat, fp.chain);
    var bcs := fp.fs.geo.csize * 512;
    broken, clst, rest, q' := false, fp.clust, ofs, q;
    while rest > bcs
      invariant fp.Stable() && fp.cltbl == null && Elsewhere(fp.fs.geo, fp.chain, old(fp.fs.logical), fp.fs.logical)
      invariant Grown(old(fp.fs.fat), fp.fs.fat, old(fp.chain), fp.chain)
      invariant q' < |fp.chain| && clst == fp.clust == fp.chain[q'] && fp.fptr == ClusterStart(fp.fs.geo, q')
      invariant rest > 0 && fp.fptr + rest == old(fp.fptr) + ofs && !broken
      invariant |fp.chain| == |old(fp.chain)| || |fp.chain| <= q' + 1
      invariant old(FreeExact(fp.fs)) ==> FreeExact(fp.fs)
    {
      ghost var logical, fat, ch, first := fp.fs.logical, fp.fs.fat, fp.chain, fp.sclust;
      if !fp.canWrite {
        MoreClusters(fp.fs.geo, q', rest, |fp.chain|);
      }
      clst := NextCluster(fp, clst, q');
      KeptAlong(fp.fs.geo, old(fp.fs.fat), fat, fp.fs.fat, old(fp.chain), ch, fp.chain, first,
                old(fp.fs.logical), logical, fp.fs.logical);
      if clst == 0 {
        rest := bcs;
        ClusterStartNext(fp.fs.geo, q');
        break;
      }
      if clst == 1 {
        broken := true;
        break;
      }
      ClusterStartNext(fp.fs.geo, q');
      fp.clust := clst;
      fp.fptr := fp.fptr + bcs;
      rest, q' := rest - bcs, q' + 1;
    }
  }

  /** More than a cluster to go inside the data: there is a next cluster. */
  lemma MoreClusters(g: Geo, q: nat, rest: nat, n: nat)
    requires g.csize > 0 && rest > g.csize * 512
    requires (ClusterStart(g, q) + rest - 1) / 512 / g.csize < n
    ensures q + 1 < n
  {
    var bcs := g.csize * 512;
    var x := q * bcs + rest - 1;
    DivBcs(x, g.csize);
    DivUnique((q + 1) * bcs, bcs, q + 1, 0);
    assert (q + 1) * bcs == q * bcs + bcs;
    DivMonotone((q + 1) * bcs, x, bcs);
  }

  /** Where the search for byte `ofs - 1` starts: the current cluster when it is not behind it, else the first,
      allocated when there is none. Answers the cluster and what is left to go; cluster 0 on a full volume, 1 when
      the search for a cluster meets a broken entry. */
  method SeekStart(fp: Fil, ofs: nat) returns (clst: nat, rest: nat, ghost q: nat)
    requires fp.Valid() && fp.cltbl == null && ofs > 0 && (fp.canWrite || ofs <= fp.fsize)
    modifies fp.fs`disk, fp.fs`logical, fp.fs`fat, fp.fs`wflag, fp.fs`winsect, fp.fs`lastClust, fp.fs`freeClust
    modifies fp.fs`fsiDirty, fp.fs.win, fp`chain, fp`sclust, fp`clust, fp`fptr
    ensures fp.Stable() && Elsewhere(fp.fs.geo, fp.chain, old(fp.fs.logical), fp.fs.logical)
    ensures Grown(old(fp.fs.fat), fp.fs.fat, old(fp.chain), fp.chain)
    ensures clst >= 2 ==> q < |fp.chain| && clst == fp.clust == fp.chain[q] && fp.fptr == ClusterStart(fp.fs.geo, q)
    ensures clst >= 2 ==> rest > 0 && fp.fptr + rest == ofs
    ensures clst == 0 ==> fp.fptr == 0 && fp.chain == [] && FreeCount(fp.fs.fat) == 0 && fp.canWrite
    ensures clst == 1 ==> !Unbroken(fp.fs.fat)
    ensures |fp.chain| == |old(fp.chain)| || |fp.chain| == 1
    ensures old(FreeExact(fp.fs)) ==> FreeExact(fp.fs)
  {
    hide Unbroken, Fil.Stable, FatGeo, DataGeo, ChainOn, IsChain, Elsewhere, Grown, FreeExact, FreeCount;
    hide SameOutsideFats, Holds, ClusterStart;
    ElsewhereRefl(fp.fs.geo, fp.chain, fp.fs.logical);
    GrownRefl(fp.fs.fat, fp.chain);
    var bcs := fp.fs.geo.csize * 512;
    var ifptr := fp.fptr;
    fp.fptr := 0;
    rest, q := ofs, 0;
    ClusterStartNext(fp.fs.geo, 0);
    if ifptr > 0 {
      SameOrFollowing(fp.fs.geo, ifptr, ofs);
    }
    if ifptr > 0 && (ofs - 1) / bcs >= (ifptr - 1) / bcs {
      q := (ifptr - 1) / bcs;
      fp.fptr := (ifptr - 1) - (ifptr - 1) % bcs;
      rest := ofs - fp.fptr;
      clst := fp.clust;
      OnChain(fp, q);
    } else {
      clst := fp.sclust;
      if clst == 0 {
        NeedsWrite(fp, ofs);
        clst := StretchChain(fp, 0, -1);
        SameOutsideElsewhere(fp.fs.geo, fp.chain, old(fp.fs.logical), fp.fs.logical);
        if clst == 1 {
          return;
        }
      } else {
        OnChain(fp, 0);
      }
      fp.clust := clst;
    }
  }

  lemma OnChain(fp: Fil, q: nat)
    requires fp.Stable() && q < |fp.chain|
    ensures InTable(fp.fs.fat, fp.chain[q])
  {
  }

  /** A file without clusters has no bytes. */
  lemma NeedsWrite(fp: Fil, ofs: nat)
    requires fp.Stable() && fp.sclust == 0 && ofs > 0 && (fp.canWrite || ofs <= |fp.contents|)
    ensures fp.canWrite && fp.chain == []
  {
    if |fp.contents| > 0 {
      assert BytePlaced(fp.fs.geo, fp.chain, fp.View(), 0, fp.contents[0]);
    }
  }

  /** From the start of cluster `q`, follows the chain to the cluster of `ofs` and finds the sector there. */
  method SeekOnward(fp: Fil, ofs: nat, rest0: nat, ghost q0: nat) returns (broken: bool, nsect: nat)
    requires fp.Stable() && fp.cltbl == null && q0 < |fp.chain| && fp.clust == fp.chain[q0]
    requires fp.fptr == ClusterStart(fp.fs.geo, q0) && rest0 > 0 && fp.fptr + rest0 == ofs
    requires fp.canWrite || (ofs - 1) / 512 / fp.fs.geo.csize < |fp.chain|
    modifies fp.fs`disk, fp.fs`logical, fp.fs`fat, fp.fs`wflag, fp.fs`winsect, fp.fs`lastClust, fp.fs`freeClust
    modifies fp.fs`fsiDirty, fp.fs.win, fp`chain, fp`sclust, fp`clust, fp`fptr
    ensures fp.Stable() && Elsewhere(fp.fs.geo, fp.chain, old(fp.fs.logical), fp.fs.logical)
    ensures Grown(old(fp.fs.fat), fp.fs.fat, old(fp.chain), fp.chain)
    ensures !broken && fp.fptr > 0 ==> ClusterIs(fp.fs.geo, fp.chain, fp.fptr - 1, fp.clust)
    ensures !broken && fp.fptr % 512 != 0 ==> SectorIs(fp.fs.geo, fp.chain, fp.fptr / 512, nsect)
    ensures !broken ==> fp.fptr == ofs || Clipped(fp.fs.geo, fp.fs.fat, fp.chain, fp.fptr, fp.canWrite, ofs)
    ensures broken ==> !Unbroken(fp.fs.fat)
    ensures !broken ==> fp.fptr > 0 && LongEnough(fp.fs.geo, old(fp.chain), fp.chain, fp.fptr)
    ensures old(FreeExact(fp.fs)) ==> FreeExact(fp.fs)
  {
    hide Fil.Stable, FatGeo, DataGeo, ChainOk, ChainOn, Elsewhere, Grown, FreeExact, FreeCount, Unbroken;
    hide ClusterIs, SectorIs, ClusterStart, ClustersFor;
    var clst, rest;
    ghost var q;
    broken, clst, rest, q := FollowClusters(fp, rest0, q0);
    nsect := 0;
    if broken {
      return;
    }
    OnChain(fp, q);
    SeekPosition(fp.fs.geo, fp.chain, q, rest);
    ReachedFor(fp.fs.geo, q, rest);
    ClusterStartNext(fp.fs.geo, q);
    fp.fptr := fp.fptr + rest;
    if rest % 512 != 0 {
      nsect := ClustToSect(fp.fs.geo, clst) + rest / 512;
    }
  }

  /** Moves the file pointer to `ofs`, or to the end of the last cluster a full volume has, and finds the
      cluster and the sector there. */
  method SeekCluster(fp: Fil, ofs: nat) returns (broken: bool, nsect: nat)
    requires fp.Valid() && fp.cltbl == null && (fp.canWrite || ofs <= fp.fsize)
    modifies fp.fs`disk, fp.fs`logical, fp.fs`fat, fp.fs`wflag, fp.fs`winsect, fp.fs`lastClust, fp.fs`freeClust
    modifies fp.fs`fsiDirty, fp.fs.win, fp`chain, fp`sclust, fp`clust, fp`fptr
    ensures fp.Stable() && Elsewhere(fp.fs.geo, fp.chain, old(fp.fs.logical), fp.fs.logical)
    ensures Grown(old(fp.fs.fat), fp.fs.fat, old(fp.chain), fp.chain)
    ensures !broken && fp.fptr > 0 ==> ClusterIs(fp.fs.geo, fp.chain, fp.fptr - 1, fp.clust)
    ensures !broken && fp.fptr % 512 != 0 ==> SectorIs(fp.fs.geo, fp.chain, fp.fptr / 512, nsect)
    ensures !broken ==> fp.fptr == ofs || Clipped(fp.fs.geo, fp.fs.fat, fp.chain, fp.fptr, fp.canWrite, ofs)
    ensures broken ==> !Unbroken(fp.fs.fat)
    ensures !broken ==> LongEnough(fp.fs.geo, old(fp.chain), fp.chain, fp.fptr)
    ensures old(FreeExact(fp.fs)) ==> FreeExact(fp.fs)
  {
    hide Fil.Stable, FatGeo, DataGeo, ChainOk, ChainOn, Elsewhere, Grown, FreeExact, FreeCount, Unbroken;
    hide ClusterIs, SectorIs, ClusterStart, ClustersFor;
    broken, nsect := false, 0;
    if ofs == 0 {
      ElsewhereRefl(fp.fs.geo, fp.chain, fp.fs.logical);
      GrownRefl(fp.fs.fat, fp.chain);
      fp.fptr := 0;
      return;
    }
    ReadRoom(fp, ofs);
    ClusterStartNext(fp.fs.geo, 0);
    var clst, rest;
    ghost var q;
    clst, rest, q := SeekStart(fp, ofs);
    if clst == 1 {
      return true, 0;
    }
    if clst != 0 {
      ghost var logical, fat, ch, first := fp.fs.logical, fp.fs.fat, fp.chain, fp.sclust;
      broken, nsect := SeekOnward(fp, ofs, rest, q);
      KeptAlong(fp.fs.geo, old(fp.fs.fat), fat, fp.fs.fat, old(fp.chain), ch, fp.chain, first,
                old(fp.fs.logical), logical, fp.fs.logical);
      OneIsEnough(fp.fs.geo, fp.fptr);
    }
  }

  lemma OneIsEnough(g: Geo, n: nat)
    requires g.csize > 0
    ensures n > 0 ==> ClustersFor(g, n) >= 1
  {
  }

  /** The volume was full before byte `ofs`: the file pointer stands at the end of the last cluster. */
  ghost predicate Clipped(g: Geo, fat: seq<nat>, ch: seq<nat>, fptr: nat, canWrite: bool, ofs: nat)
    requires |fat| >= 2
  {
    canWrite && fptr < ofs && FreeCount(fat) == 0 && fptr == ClusterStart(g, |ch|)
  }

  lemma ReadRoom(fp: Fil, ofs: nat)
    requires fp.Stable() && ofs > 0
    ensures ofs <= |fp.contents| ==> (ofs - 1) / 512 / fp.fs.geo.csize < |fp.chain|
  {
    if ofs <= |fp.contents| {
      assert BytePlaced(fp.fs.geo, fp.chain, fp.View(), ofs - 1, fp.contents[ofs - 1]);
    }
  }

  /** The bytes the file gains when its end moves to `n`: whatever its sectors show. */
  ghost function Exposed(g: Geo, ch: seq<nat>, v: seq<Sector>, c: seq<byte>, n: nat): (r: seq<byte>)
    ensures |r| == if n > |c| then n else |c|
    ensures c <= r
  {
    if n <= |c| then c
    else c + seq<byte>(n - |c|, i requires 0 <= i < n - |c| => ByteAt(g, ch, v, |c| + i))
  }

  ghost function ByteAt(g: Geo, ch: seq<nat>, v: seq<Sector>, i: nat): byte {
    if exists b: byte :: BytePlaced(g, ch, v, i, b) then var b: byte :| BytePlaced(g, ch, v, i, b); b else 0
  }

  lemma ExposedHolds(g: Geo, ch: seq<nat>, v: seq<Sector>, c: seq<byte>, n: nat, clust: nat)
    requires FatGeo(g, |v|) && DataGeo(g, |v|) && ChainOn(g, ch) && Holds(g, ch, v, c)
    requires n > |c| ==> ClusterIs(g, ch, n - 1, clust)
    ensures Holds(g, ch, v, Exposed(g, ch, v, c, n))
  {
    hide FatGeo, DataGeo, SectorOf, BytePlaced, ClusterIs, ByteAt;
    var c' := Exposed(g, ch, v, c, n);
    forall i: nat | i < |c'| ensures BytePlaced(g, ch, v, i, c'[i]) {
      if i < |c| {
        assert BytePlaced(g, ch, v, i, c[i]);
      } else {
        RoomBelow(g, ch, i, n - 1, clust);
        RoomPlaced(g, ch, v, i);
        assert c'[i] == ByteAt(g, ch, v, i);
      }
    }
  }

  lemma RoomPlaced(g: Geo, ch: seq<nat>, v: seq<Sector>, i: nat)
    requires FatGeo(g, |v|) && DataGeo(g, |v|) && ChainOn(g, ch) && i / 512 / g.csize < |ch|
    ensures BytePlaced(g, ch, v, i, ByteAt(g, ch, v, i))
  {
    hide FatGeo, DataGeo, SectorOf;
    SectorOfRange(g, |v|, ch, i / 512);
    assert BytePlaced(g, ch, v, i, v[SectorOf(g, ch, i / 512)][i % 512]);
  }

  /** f_lseek without a link map. Within the file, and past its end while clusters can be had, the file pointer
      reaches `ofs`; a read-only file stops at its end. The bytes before the old end stay what they were. When the
      search for a cluster meets an entry holding 1 it is aborted. */
  method SeekNormal(fp: Fil, ofs0: nat) returns (res: FResult)
    requires fp.Valid() && fp.err == FrOk && fp.cltbl == null && ofs0 < 0x1_0000_0000
    modifies fp.fs`disk, fp.fs`logical, fp.fs`fat, fp.fs`wflag, fp.fs`winsect, fp.fs`lastClust, fp.fs`freeClust
    modifies fp.fs`fsiDirty, fp.fs.win, fp`chain, fp`sclust, fp`clust, fp`fptr, fp`dirty, fp`dsect, fp`fsize, fp`written
    modifies fp`contents, fp.buf
    modifies fp`err
    ensures fp.Sound() && res == fp.err
    ensures res != FrOk ==> res == FrIntErr && !Unbroken(old(fp.fs.fat))
    ensures res != FrOk ==> fp.contents == old(fp.contents) && fp.fsize == old(fp.fsize)
    ensures res == FrOk ==>
              fp.fptr == SeekTarget(ofs0, old(fp.fsize), fp.canWrite)
              || Clipped(fp.fs.geo, fp.fs.fat, fp.chain, fp.fptr, fp.canWrite, ofs0)
    ensures res == FrOk ==> fp.fsize == if fp.fptr > old(fp.fsize) then fp.fptr else old(fp.fsize)
    ensures old(fp.contents) <= fp.contents
    ensures fp.written == (old(fp.written) || fp.fsize > old(fp.fsize))
    ensures Elsewhere(fp.fs.geo, fp.chain, old(fp.fs.logical), fp.fs.logical)
    ensures Grown(old(fp.fs.fat), fp.fs.fat, old(fp.chain), fp.chain)
    ensures res == FrOk ==> LongEnough(fp.fs.geo, old(fp.chain), fp.chain, fp.fptr)
    ensures old(FreeExact(fp.fs)) ==> FreeExact(fp.fs)
  {
    hide *;
    TargetRange(ofs0, fp.fsize, fp.canWrite);
    ValidSound(fp);
    res := FrOk;
    ghost var fat, ch := fp.fs.fat, fp.chain;
    var broken := SeekTo(fp, SeekTarget(ofs0, fp.fsize, fp.canWrite));
    if broken {
      fp.err := FrIntErr;
      res := FrIntErr;
      StillUnbroken(fp, fat, ch);
      SoundAborted(fp);
    } else {
      ValidSound(fp);
      ValidTable(fp);
      ClippedBelow(fp, SeekTarget(ofs0, old(fp.fsize), fp.canWrite));
    }
  }

  lemma ValidTable(fp: Fil)
    requires fp.Valid()
    ensures |fp.fs.fat| >= 2
  {
  }

  lemma OpenMeans(fp: Fil)
    requires fp.Open()
    ensures fp.err == FrOk ==> fp.Valid()
  {
  }

  lemma ValidSound(fp: Fil)
    requires fp.Valid()
    ensures fp.Sound() && |fp.contents| == fp.fsize < 0x1_0000_0000 && !fp.growing
  {
    hide Fil.Stable;
  }

  lemma SoundOpen(fp: Fil)
    requires fp.Sound()
    ensures fp.Open()
  {
    hide FatGeo, DataGeo, ChainOn, ChainOk, CursorAt, Holds, BufferOk;
  }

  lemma SoundAborted(fp: Fil)
    requires fp.Stable() && |fp.contents| == fp.fsize < 0x1_0000_0000 && !fp.growing && fp.err != FrOk
    ensures fp.Sound()
  {
    hide Fil.Stable, Fil.Cursor;
  }

  /** The moves of f_lseek without a link map. */
  method SeekTo(fp: Fil, ofs: nat) returns (broken: bool)
    requires fp.Valid() && fp.cltbl == null && ofs < 0x1_0000_0000 && (fp.canWrite || ofs <= fp.fsize)
    modifies fp.fs`disk, fp.fs`logical, fp.fs`fat, fp.fs`wflag, fp.fs`winsect, fp.fs`lastClust, fp.fs`freeClust
    modifies fp.fs`fsiDirty, fp.fs.win, fp`chain, fp`sclust, fp`clust, fp`fptr, fp`dirty, fp`dsect, fp`fsize, fp`written
    modifies fp`contents, fp.buf
    ensures fp.Stable() && !fp.growing && fp.cltbl == null && fp.err == old(fp.err) && fp.fs.geo == old(fp.fs.geo)
    ensures broken ==> !Unbroken(fp.fs.fat) && fp.contents == old(fp.contents) && fp.fsize == old(fp.fsize)
    ensures !broken ==>
              fp.Valid()
              && (fp.fptr == ofs || Clipped(fp.fs.geo, fp.fs.fat, fp.chain, fp.fptr, fp.canWrite, ofs))
    ensures !broken ==> fp.fsize == if fp.fptr > old(fp.fsize) then fp.fptr else old(fp.fsize)
    ensures old(fp.contents) <= fp.contents
    ensures fp.written == (old(fp.written) || fp.fsize > old(fp.fsize))
    ensures Elsewhere(fp.fs.geo, fp.chain, old(fp.fs.logical), fp.fs.logical)
    ensures Grown(old(fp.fs.fat), fp.fs.fat, old(fp.chain), fp.chain)
    ensures !broken ==> LongEnough(fp.fs.geo, old(fp.chain), fp.chain, fp.fptr)
    ensures old(FreeExact(fp.fs)) ==> FreeExact(fp.fs)
  {
    hide Fil.Stable, FatGeo, DataGeo, ChainOk, ChainOn, Elsewhere, Grown, FreeExact, FreeCount, Unbroken;
    hide ClusterIs, SectorIs, Clipped, ClusterStart, LongEnough;
    var nsect;
    broken, nsect := SeekCluster(fp, ofs);
    if broken {
      return;
    }
    ClippedBelow(fp, ofs);
    ghost var logical, fat, ch, at := fp.fs.logical, fp.fs.fat, fp.chain, fp.fptr;
    Settle(fp, nsect);
    assert fp.fptr == at && fp.fs.fat == fat && fp.chain == ch;
    ElsewhereTrans(fp.fs.geo, fp.chain, fp.chain, old(fp.fs.logical), logical, fp.fs.logical);
  }

  /** The end of f_lseek: the buffer and the end of the file follow the file pointer. */
  method Settle(fp: Fil, nsect: nat)
    requires fp.Stable() && !fp.growing && |fp.contents| == fp.fsize < 0x1_0000_0000 && fp.fptr < 0x1_0000_0000
    requires fp.fptr > 0 ==> ClusterIs(fp.fs.geo, fp.chain, fp.fptr - 1, fp.clust)
    requires fp.fptr % 512 != 0 ==> SectorIs(fp.fs.geo, fp.chain, fp.fptr / 512, nsect)
    modifies fp.fs`disk, fp.fs`logical, fp`dirty, fp`dsect, fp`fsize, fp`written, fp`contents, fp.buf
    ensures fp.Valid() && old(fp.contents) <= fp.contents
    ensures fp.fsize == if fp.fptr > old(fp.fsize) then fp.fptr else old(fp.fsize)
    ensures fp.written == (old(fp.written) || fp.fsize > old(fp.fsize))
    ensures Elsewhere(fp.fs.geo, fp.chain, old(fp.fs.logical), fp.fs.logical)
  {
    hide *;
    LoadSought(fp, nsect);
    ExtendSize(fp);
  }

  /** Fills the buffer with the sector of the file pointer when that lies inside a sector. */
  method LoadSought(fp: Fil, nsect: nat)
    requires fp.Stable() && !fp.growing
    requires fp.fptr % 512 != 0 ==> SectorIs(fp.fs.geo, fp.chain, fp.fptr / 512, nsect)
    modifies fp.fs`disk, fp.fs`logical, fp`dirty, fp`dsect, fp.buf
    ensures fp.Stable()
    ensures fp.fptr % 512 != 0 ==> SectorIs(fp.fs.geo, fp.chain, fp.fptr / 512, fp.dsect)
    ensures Elsewhere(fp.fs.geo, fp.chain, old(fp.fs.logical), fp.fs.logical)
  {
    hide *;
    ElsewhereRefl(fp.fs.geo, fp.chain, fp.fs.logical);
    if fp.fptr % 512 != 0 {
      LoadBuffer(fp, nsect, fp.fptr / 512);
    }
  }

  lemma TargetRange(ofs: nat, fsize: nat, canWrite: bool)
    ensures SeekTarget(ofs, fsize, canWrite) <= ofs
    ensures if canWrite then SeekTarget(ofs, fsize, canWrite) == ofs else SeekTarget(ofs, fsize, canWrite) <= fsize
  {
  }

  lemma ClippedBelow(fp: Fil, ofs: nat)
    requires |fp.fs.fat| >= 2
    ensures Clipped(fp.fs.geo, fp.fs.fat, fp.chain, fp.fptr, fp.canWrite, ofs) ==> fp.fptr < ofs && fp.canWrite
  {
  }

  /** The end of f_lseek: a file pointer behind the end moves the end. */
  method ExtendSize(fp: Fil)
    requires fp.Stable() && !fp.growing && |fp.contents| == fp.fsize < 0x1_0000_0000 && fp.fptr < 0x1_0000_0000
    requires fp.fptr > 0 ==> ClusterIs(fp.fs.geo, fp.chain, fp.fptr - 1, fp.clust)
    requires fp.fptr % 512 != 0 ==> SectorIs(fp.fs.geo, fp.chain, fp.fptr / 512, fp.dsect)
    modifies fp`fsize, fp`written, fp`contents
    ensures fp.Valid() && old(fp.contents) <= fp.contents
    ensures fp.fsize == if fp.fptr > old(fp.fsize) then fp.fptr else old(fp.fsize)
    ensures fp.written == (old(fp.written) || fp.fsize > old(fp.fsize))
  {
    hide FatGeo, DataGeo, ChainOk, ChainOn, ClusterIs, SectorIs, Holds, BufferOk, Fatfs.Valid, Avail, Exposed;
    ExposedHolds(fp.fs.geo, fp.chain, fp.View(), fp.contents, fp.fptr, fp.clust);
    fp.contents := Exposed(fp.fs.geo, fp.chain, fp.View(), fp.contents, fp.fptr);
    if fp.fptr > fp.fsize {
      fp.fsize := fp.fptr;
      fp.written := true;
    }
  }

  /** Where f_lseek wants to go: the end of the file at most unless the file is open for writing. */
  function SeekTarget(ofs: nat, fsize: nat, canWrite: bool): nat {
    if ofs > fsize && !canWrite then fsize else ofs
  }

  // ----- link map -----

  /** The end mark of a chain is also the number behind its last cluster. Only the last cluster of the volume
      with a mark equal to the number of FAT entries can make it so. */
  ghost predicate MarkRunsOn(fat: seq<nat>, ch: seq<nat>) {
    ch != [] && ch[|ch| - 1] < |fat| && fat[ch[|ch| - 1]] == ch[|ch| - 1] + 1
  }

  /** When that is, and a table where it is so: three entries, the last one marked with the number behind it. */
  lemma RunsOnExactly(fat: seq<nat>, ch: seq<nat>, x: nat, y: nat)
    requires IsChain(fat, ch)
    ensures MarkRunsOn(fat, ch) <==> ch[|ch| - 1] == |fat| - 1 && fat[|fat| - 1] == |fat|
    ensures IsChain([x, y, 3], [2]) && MarkRunsOn([x, y, 3], [2])
  {
    assert InTable(fat, ch[|ch| - 1]);
  }

  /** The loop of CREATE_LINKMAP over one fragment: its length and the number that follows it on the chain. */
  method MeasureRun(fp: Fil, tcl: nat, ghost i: nat) returns (ok: bool, ncl: nat, cl: nat)
    requires fp.Stable() && i < |fp.chain| && tcl == fp.chain[i]
    modifies fp.fs`disk, fp.fs`wflag, fp.fs`winsect, fp.fs.win
    ensures fp.Stable()
    ensures ok ==> ncl == RunLength(fp.chain[i..])
    ensures ok && i + ncl < |fp.chain| ==> cl == fp.chain[i + ncl] < |fp.fs.fat|
    ensures ok && i + ncl == |fp.chain| ==> cl >= |fp.fs.fat|
    ensures !ok ==> MarkRunsOn(fp.fs.fat, fp.chain)
    ensures ok && i + ncl == |fp.chain| ==> !MarkRunsOn(fp.fs.fat, fp.chain)
  {
    hide Fil.Stable, FatGeo, DataGeo, ChainOk, ChainOn, RunLength, Fragments, MarkRunsOn, OnRun;
    RunStarts(fp.fs.fat, fp.chain, fp.sclust, i);
    cl, ncl := tcl, 0;
    while true
      invariant fp.Stable()
      invariant OnRun(fp.fs.fat, fp.chain, i, ncl, tcl, cl)
      decreases |fp.chain| + 1 - ncl
    {
      RunContinues(fp.fs.fat, fp.chain, fp.sclust, i, ncl, tcl, cl);
      var pcl := cl;
      ncl := ncl + 1;
      cl := FollowChain(fp, cl);
      if cl <= 1 {
        return false, ncl, cl;
      }
      if cl != pcl + 1 {
        return true, ncl, cl;
      }
    }
  }

  /** `ncl` clusters behind cluster `i` are in a run that starts with `tcl`, and `cl` comes next. */
  ghost predicate OnRun(fat: seq<nat>, ch: seq<nat>, i: nat, ncl: nat, tcl: nat, cl: nat) {
    if i + ncl < |ch| then cl == ch[i + ncl] && forall j | i <= j <= i + ncl :: ch[j] == tcl + (j - i)
    else i + ncl == |ch| && cl == |fat| && MarkRunsOn(fat, ch)
  }

  lemma RunStarts(fat: seq<nat>, ch: seq<nat>, sclust: nat, i: nat)
    requires ChainOk(fat, ch, sclust) && i < |ch|
    ensures OnRun(fat, ch, i, 0, ch[i], ch[i])
  {
  }

  /** What the next entry means for a run: one more cluster, the end of the run, or a mark that runs on. */
  lemma RunContinues(fat: seq<nat>, ch: seq<nat>, sclust: nat, i: nat, ncl: nat, tcl: nat, cl: nat)
    requires ChainOk(fat, ch, sclust) && OnRun(fat, ch, i, ncl, tcl, cl) && i < |ch|
    ensures ncl <= |ch|
    ensures var next := if InTable(fat, cl) then fat[cl] else 1;
            && (next <= 1 ==> MarkRunsOn(fat, ch))
            && (next == cl + 1 ==> OnRun(fat, ch, i, ncl + 1, tcl, next))
            && (next > 1 && next != cl + 1 ==>
                  && ncl + 1 == RunLength(ch[i..])
                  && (i + ncl + 1 < |ch| ==> next == ch[i + ncl + 1] < |fat|)
                  && (i + ncl + 1 == |ch| ==> next >= |fat| && !MarkRunsOn(fat, ch)))
  {
    hide RunLength, ChainOk;
    if i + ncl < |ch| {
      ChainNext(fat, ch, sclust, i + ncl, cl);
      if fat[cl] != cl + 1 {
        RunLengthAt(ch, i, ncl + 1);
      }
    }
  }

  lemma RunLengthAt(ch: seq<nat>, i: nat, n: nat)
    requires 0 < n && i + n <= |ch| && forall j | i <= j < i + n :: ch[j] == ch[i] + (j - i)
    requires i + n < |ch| ==> ch[i + n] != ch[i + n - 1] + 1
    ensures RunLength(ch[i..]) == n
  {
    var rest := ch[i..];
    forall k | 0 <= k < n ensures rest[k] == rest[0] + k {
      assert rest[k] == ch[i + k];
    }
    RunLengthIs(rest, n);
  }

  /** What CREATE_LINKMAP makes of table `t0`, whose first item gives its size: it fails exactly when the end mark
      runs on; else it reports the size the chain needs, and the table maps the chain when that fits. Nothing
      behind the given size is touched. */
  ghost predicate MapMade(fat: seq<nat>, ch: seq<nat>, t0: seq<nat>, t: seq<nat>, res: FResult) {
    && |t| == |t0| > 0
    && (forall i | 0 < i < |t| && i >= t0[0] :: t[i] == t0[i])
    && if MarkRunsOn(fat, ch) then res == FrIntErr
       else
         && t[0] == 2 + 2 * Runs(ch)
         && res == (if t[0] <= t0[0] then FrOk else FrNotEnoughCore)
         && (res == FrOk ==> MapsChain(t, ch))
  }

  /** The items of a table, if there is one. */
  function Items(cltbl: array?<nat>): (t: seq<nat>)
    reads cltbl
  {
    if cltbl == null then [] else cltbl[..]
  }

  /** f_lseek(CREATE_LINKMAP) into the attached table, whose first item gives its size. Nothing behind that is
      touched. The table stays attached whatever the answer is. */
  method CreateLinkMap(fp: Fil) returns (res: FResult)
    requires fp.Valid() && fp.err == FrOk
    requires fp.cltbl != null && fp.cltbl.Length > 0 && fp.cltbl[0] <= fp.cltbl.Length
    modifies fp.fs`disk, fp.fs`wflag, fp.fs`winsect, fp.fs.win, fp`err, fp`mapOk, fp`mapOf, fp.cltbl
    ensures fp.Valid() && fp.err == if res == FrIntErr then FrIntErr else FrOk
    ensures MapMade(fp.fs.fat, fp.chain, old(Items(fp.cltbl)), Items(fp.cltbl), res)
    ensures fp.mapOk == (res == FrOk) && (fp.mapOk ==> fp.mapOf == fp.chain)
    ensures fp.fptr == old(fp.fptr) && fp.fsize == old(fp.fsize) && fp.chain == old(fp.chain)
            && fp.contents == old(fp.contents)
    ensures fp.fs.fat == old(fp.fs.fat) && fp.fs.logical == old(fp.fs.logical)
            && fp.fs.freeClust == old(fp.fs.freeClust)
  {
    hide Fil.Stable, FatGeo, DataGeo, ChainOn, ChainOk, CursorAt, Fragments, Runs, MarkRunsOn, MapsChain;
    var tbl := fp.cltbl;
    ForgetMap(fp);
    EmptyMap(fp);
    var ok, ulen, p := true, 2, 1;
    if fp.sclust != 0 {
      ok, ulen, p := FillMap(fp, tbl);
      if !ok {
        fp.err := FrIntErr;
        return FrIntErr;
      }
    }
    res := EndMap(fp, tbl, ulen, p);
    if res == FrOk {
      KeepMap(fp);
    }
  }

  /** While it is filled the table maps nothing. */
  ghost method ForgetMap(fp: Fil)
    requires fp.Valid()
    modifies fp`mapOk
    ensures fp.Valid() && !fp.mapOk
  {
    hide FatGeo, DataGeo, ChainOn, ChainOk, Holds, BufferOk, Fatfs.Valid, Avail, CursorAt, MapsChain;
    fp.mapOk := false;
  }

  ghost method KeepMap(fp: Fil)
    requires fp.Valid() && fp.cltbl != null && MapsChain(fp.cltbl[..], fp.chain)
    modifies fp`mapOk, fp`mapOf
    ensures fp.Valid() && fp.mapOk && fp.mapOf == fp.chain
  {
    hide FatGeo, DataGeo, ChainOn, ChainOk, Holds, BufferOk, Fatfs.Valid, Avail, CursorAt, MapsChain;
    fp.mapOk, fp.mapOf := true, fp.chain;
  }

  /** Stores item `i` of a table that maps nothing yet. */
  method StoreItem(fp: Fil, tbl: array<nat>, i: nat, v: nat)
    requires fp.Stable() && fp.cltbl == tbl && !fp.mapOk && i < tbl.Length
    modifies tbl
    ensures fp.Stable() && tbl[..] == old(tbl[..])[i := v]
  {
    hide FatGeo, DataGeo, ChainOn, ChainOk, Holds, BufferOk, Fatfs.Valid, Avail, CursorAt, MapsChain;
    tbl[i] := v;
  }

  /** Reports the size and terminates a table whose fragments are stored. */
  method EndMap(fp: Fil, tbl: array<nat>, ulen: nat, p: nat) returns (res: FResult)
    requires fp.Valid() && fp.cltbl == tbl && !fp.mapOk && 0 < tbl.Length && tbl[0] <= tbl.Length
    requires ulen >= 2 && (ulen <= tbl[0] ==> p == ulen - 1 && tbl[1..p] == Fragments(fp.chain))
    modifies tbl
    ensures fp.Valid() && res == (if ulen <= old(tbl[0]) then FrOk else FrNotEnoughCore)
    ensures tbl[0] == ulen && (res == FrOk ==> MapsChain(tbl[..], fp.chain))
    ensures forall j | 0 < j < tbl.Length && j >= old(tbl[0]) :: tbl[j] == old(tbl[j])
  {
    hide Fragments, Fil.Stable, CursorAt, MapsChain;
    var tlen := tbl[0];
    ghost var t := tbl[..];
    StoreItem(fp, tbl, 0, ulen);
    if ulen > tlen {
      return FrNotEnoughCore;
    }
    StoreItem(fp, tbl, p, 0);
    assert t[1..p] == tbl[1..p];
    Terminated(tbl[..], p, fp.chain);
    res := FrOk;
  }

  lemma Terminated(t: seq<nat>, p: nat, ch: seq<nat>)
    requires 0 < p < |t| && t[1..p] == Fragments(ch) && t[p] == 0
    ensures MapsChain(t, ch)
  {
    hide Fragments;
    assert t[1..p + 1] == Fragments(ch) + [0];
  }

  /** A file without clusters has an empty map. */
  lemma EmptyMap(fp: Fil)
    requires fp.Stable()
    ensures |Fragments(fp.chain)| == 2 * Runs(fp.chain)
    ensures fp.sclust == 0 ==> Fragments(fp.chain) == [] && Runs(fp.chain) == 0 && !MarkRunsOn(fp.fs.fat, fp.chain)
  {
  }

  /** The loop of CREATE_LINKMAP over the fragments of a chain: the items used, and the fragments stored while they
      fit. */
  method FillMap(fp: Fil, tbl: array<nat>) returns (ok: bool, ulen: nat, p: nat)
    requires fp.Stable() && fp.cltbl == tbl && !fp.mapOk && fp.sclust != 0
    requires tbl.Length > 0 && tbl[0] <= tbl.Length
    modifies fp.fs`disk, fp.fs`wflag, fp.fs`winsect, fp.fs.win, tbl
    ensures fp.Stable() && tbl[0] == old(tbl[0]) && (ok <==> !MarkRunsOn(fp.fs.fat, fp.chain))
    ensures ok ==> ulen == |Fragments(fp.chain)| + 2
    ensures ok && ulen <= tbl[0] ==> p == ulen - 1 && tbl[1..p] == Fragments(fp.chain)
    ensures forall j | 0 < j < tbl.Length && j >= tbl[0] :: tbl[j] == old(tbl[j])
  {
    hide Fil.Stable, FatGeo, DataGeo, ChainOn, IsChain, Fragments, RunLength, MarkRunsOn, Filled;
    var tlen := tbl[0];
    var cl := fp.sclust;
    ghost var i: nat, t0 := 0, tbl[..];
    ok, ulen, p := true, 2, 1;
    FilledStarts(t0, fp.chain);
    while true
      invariant fp.Stable() && fp.cltbl == tbl && !fp.mapOk && ok
      invariant i < |fp.chain| && cl == fp.chain[i]
      invariant Filled(tbl[..], t0, ulen, p, fp.chain, i)
      decreases |fp.chain| - i
    {
      var tcl := cl;
      ulen := ulen + 2;
      var ncl;
      ok, ncl, cl := MeasureRun(fp, tcl, i);
      FilledMeans(tbl[..], t0, ulen - 2, p, fp.chain, i);
      if !ok {
        return;
      }
      ghost var t := tbl[..];
      if ulen <= tlen {
        StoreItem(fp, tbl, p, ncl);
        StoreItem(fp, tbl, p + 1, tcl);
      }
      FilledGrows(t, tbl[..], t0, ulen - 2, p, fp.chain, i, ncl);
      if ulen <= tlen {
        p := p + 2;
      }
      i := i + ncl;
      if cl >= fp.fs.geo.nFatent {
        break;
      }
    }
    FilledMeans(tbl[..], t0, ulen, p, fp.chain, i);
  }

  /** Table `t`, `t0` before, holds the fragments of the first `i` clusters as far as they fit. */
  ghost predicate Filled(t: seq<nat>, t0: seq<nat>, ulen: nat, p: nat, ch: seq<nat>, i: nat) {
    && |t| == |t0| > 0 && t[0] == t0[0] <= |t| && i <= |ch| && ulen >= 2
    && (forall j | 0 < j < |t| && j >= t[0] :: t[j] == t0[j])
    && |Fragments(ch)| == ulen - 2 + |Fragments(ch[i..])|
    && Fragments(ch)[ulen - 2..] == Fragments(ch[i..])
    && (ulen <= t[0] ==> p == ulen - 1 && t[1..p] == Fragments(ch)[..ulen - 2])
  }

  lemma FilledStarts(t0: seq<nat>, ch: seq<nat>)
    requires |t0| > 0 && t0[0] <= |t0|
    ensures Filled(t0, t0, 2, 1, ch, 0)
  {
    assert ch[0..] == ch;
  }

  lemma FilledMeans(t: seq<nat>, t0: seq<nat>, ulen: nat, p: nat, ch: seq<nat>, i: nat)
    requires Filled(t, t0, ulen, p, ch, i)
    ensures |t| == |t0| > 0 && t[0] == t0[0] <= |t|
    ensures forall j | 0 < j < |t| && j >= t[0] :: t[j] == t0[j]
    ensures ulen <= t[0] ==> p == ulen - 1
    ensures i == |ch| ==> ulen == |Fragments(ch)| + 2
    ensures i == |ch| && ulen <= t[0] ==> t[1..p] == Fragments(ch)
  {
    if i == |ch| {
      assert ch[i..] == [];
    }
  }

  /** One more fragment measured, and stored when it fits. */
  lemma FilledGrows(t: seq<nat>, t': seq<nat>, t0: seq<nat>, ulen: nat, p: nat, ch: seq<nat>, i: nat, n: nat)
    requires Filled(t, t0, ulen, p, ch, i) && i < |ch| && n == RunLength(ch[i..])
    requires if ulen + 2 <= t[0] then p + 2 <= |t| && t' == t[p := n][p + 1 := ch[i]] else t' == t
    ensures 0 < n <= |ch| - i
    ensures Filled(t', t0, ulen + 2, if ulen + 2 <= t[0] then p + 2 else p, ch, i + n)
  {
    hide Fragments, RunLength;
    NextFragment(ch, i, ulen - 2, n);
    if ulen + 2 <= t[0] {
      Stored(t, t', p, n, ch[i]);
    }
  }

  /** The fragments from cluster `i` on start with that of its run. */
  lemma NextFragment(ch: seq<nat>, i: nat, k: nat, n: nat)
    requires i < |ch| && n == RunLength(ch[i..]) && k <= |Fragments(ch)| && Fragments(ch)[k..] == Fragments(ch[i..])
    ensures 0 < n <= |ch| - i && k + 2 <= |Fragments(ch)|
    ensures Fragments(ch)[..k + 2] == Fragments(ch)[..k] + [n, ch[i]]
    ensures Fragments(ch)[k + 2..] == Fragments(ch[i + n..])
  {
    var rest, f := ch[i..], Fragments(ch);
    FragmentsStep(rest);
    assert rest[n..] == ch[i + n..];
    hide *;
    assert f[k..][..2] == [n, ch[i]] && f[k..][2..] == f[k + 2..];
    assert f[..k + 2] == f[..k] + f[k..][..2];
  }

  lemma Stored(t: seq<nat>, t': seq<nat>, p: nat, n: nat, c: nat)
    requires 0 < p && p + 2 <= |t| && t' == t[p := n][p + 1 := c]
    ensures t'[1..p + 2] == t[1..p] + [n, c]
    ensures forall j | 0 <= j < |t| && j != p && j != p + 1 :: t'[j] == t[j]
  {
  }

  lemma FragmentsStep(ch: seq<nat>)
    requires ch != []
    ensures 0 < RunLength(ch) <= |ch|
    ensures Fragments(ch) == [RunLength(ch), ch[0]] + Fragments(ch[RunLength(ch)..])
    ensures Fragments(ch[|ch|..]) == []
  {
  }

  // ----- fast seek -----

  /** The first `at` bytes lie in the clusters a link map was made of. */
  predicate Mapped(g: Geo, of: seq<nat>, at: nat) {
    at == 0 || (g.csize > 0 && (at - 1) / 512 / g.csize < |of|)
  }

  /** f_lseek with a link map: no FAT access, the file pointer stops at the end of the file. It is aborted exactly
      when the map was made before the file had the cluster to go to. */
  method SeekFast(fp: Fil, ofs0: nat) returns (res: FResult)
    requires fp.Valid() && fp.err == FrOk && fp.cltbl != null && fp.mapOk
    modifies fp.fs`disk, fp.fs`logical, fp`clust, fp`fptr, fp`dirty, fp`dsect, fp`err, fp.buf
    ensures fp.Sound() && res == fp.err
    ensures res == if Mapped(fp.fs.geo, fp.mapOf, Min(ofs0, fp.fsize)) then FrOk else FrIntErr
    ensures fp.fptr == Min(ofs0, fp.fsize)
    ensures Elsewhere(fp.fs.geo, fp.chain, old(fp.fs.logical), fp.fs.logical)
  {
    hide Fil.Stable, FatGeo, DataGeo, ChainOn, ChainOk, Elsewhere, SectorIs;
    ElsewhereRefl(fp.fs.geo, fp.chain, fp.fs.logical);
    res := FrOk;
    var ofs := Min(ofs0, fp.fsize);
    fp.fptr := ofs;
    if ofs > 0 {
      ReadRoom(fp, ofs);
      MapAttached(fp);
      fp.clust := ClmtClust(fp.cltbl, ofs - 1, fp.fs.geo.csize, fp.mapOf);
      if (ofs - 1) / 512 / fp.fs.geo.csize < |fp.mapOf| {
        SectorHere(fp, ofs - 1, fp.clust);
      }
      var dsc := ClustToSect(fp.fs.geo, fp.clust);
      if dsc == 0 {
        fp.err := FrIntErr;
        return FrIntErr;
      }
      dsc := dsc + (ofs - 1) / 512 % fp.fs.geo.csize;
      if ofs % 512 != 0 {
        assert (ofs - 1) / 512 == ofs / 512;
        LoadBuffer(fp, dsc, ofs / 512);
      }
    }
  }

  lemma MapAttached(fp: Fil)
    requires fp.Stable() && fp.cltbl != null && fp.mapOk
    ensures MapsChain(fp.cltbl[..], fp.mapOf) && fp.mapOf <= fp.chain
  {
    hide FatGeo, DataGeo, ChainOn, ChainOk, Holds, BufferOk, Fatfs.Valid, Avail, CursorAt, MapsChain;
  }

  /** The clusters of a file reach the end of its bytes, so no seek inside them is cut short. */
  lemma NotClippedInside(fp: Fil, ofs: nat)
    requires fp.Stable() && ofs <= |fp.contents|
    ensures !Clipped(fp.fs.geo, fp.fs.fat, fp.chain, fp.fptr, fp.canWrite, ofs)
  {
    hide Fil.Stable, FatGeo, DataGeo, ChainOk, ChainOn;
    if ofs > 0 {
      ReadRoom(fp, ofs);
      DivBcs(ofs - 1, fp.fs.geo.csize);
      DivLess(ofs - 1, fp.fs.geo.csize * 512, |fp.chain|);
    }
  }

  /** The offset that asks f_lseek for a link map when a table is attached. */
  const CREATE_LINKMAP: nat := 0xFFFF_FFFF

  /** A table is attached and the offset asks for its link map. */
  predicate AsksForMap(cltbl: array?<nat>, ofs: nat) {
    cltbl != null && ofs == CREATE_LINKMAP
  }

  /** Where a normal f_lseek ends when it succeeds. */
  ghost predicate Sought(g: Geo, fat: seq<nat>, ch: seq<nat>, at: nat, fsize: nat, ofs: nat, canWrite: bool)
    requires |fat| >= 2
  {
    if ofs <= fsize || !canWrite then at == Min(ofs, fsize)
    else at == ofs || Clipped(g, fat, ch, at, canWrite, ofs)
  }

  /** How a move ends: a fast one fails exactly when the map does not reach the offset, a normal one only when a
      broken entry is met; the file gets longer when the file pointer ends behind it. */
  ghost predicate Moved(g: Geo, fat0: seq<nat>, fat: seq<nat>, ch: seq<nat>, of: seq<nat>, at: nat, size: nat,
                        size': nat,
                        ofs: nat, canWrite: bool, fast: bool, res: FResult)
    requires |fat| >= 2
  {
    && (res == FrOk || res == FrIntErr)
    && (if fast then res == FrOk <==> Mapped(g, of, Min(ofs, size)) else res == FrOk || !Unbroken(fat0))
    && (if fast then at == Min(ofs, size) else res == FrOk ==> Sought(g, fat, ch, at, size, ofs, canWrite))
    && size' == if res == FrOk && !fast && at > size then at else size
  }

  /** f_lseek to an offset, normal or fast. */
  method MoveTo(fp: Fil, ofs: nat) returns (res: FResult)
    requires fp.Valid() && fp.err == FrOk && ofs < 0x1_0000_0000
    requires fp.MapUsable() && !AsksForMap(fp.cltbl, ofs)
    modifies fp.fs`disk, fp.fs`logical, fp.fs`fat, fp.fs`wflag, fp.fs`winsect, fp.fs`lastClust, fp.fs`freeClust
    modifies fp.fs`fsiDirty, fp.fs.win, fp`chain, fp`sclust, fp`clust, fp`fptr, fp`dirty, fp`dsect, fp`fsize, fp`written
    modifies fp`contents, fp.buf
    modifies fp`err
    ensures fp.Sound() && res == fp.err && Items(fp.cltbl) == old(Items(fp.cltbl))
    ensures fp.mapOk == old(fp.mapOk) && fp.mapOf == old(fp.mapOf) && fp.cltbl == old(fp.cltbl)
            && fp.fs.geo == old(fp.fs.geo)
    ensures Moved(fp.fs.geo, old(fp.fs.fat), fp.fs.fat, fp.chain, fp.mapOf, fp.fptr, old(fp.fsize), fp.fsize, ofs,
            fp.canWrite, fp.cltbl != null, res)
    ensures old(fp.contents) <= fp.contents && (res != FrOk || fp.cltbl != null ==> fp.contents == old(fp.contents))
    ensures Elsewhere(fp.fs.geo, fp.chain, old(fp.fs.logical), fp.fs.logical)
    ensures Grown(old(fp.fs.fat), fp.fs.fat, old(fp.chain), fp.chain)
    ensures res == FrOk ==> LongEnough(fp.fs.geo, old(fp.chain), fp.chain, fp.fptr)
    ensures fp.cltbl != null ==> fp.chain == old(fp.chain) && fp.fs.fat == old(fp.fs.fat)
    ensures fp.written == (old(fp.written) || fp.fsize > old(fp.fsize))
    ensures old(FreeExact(fp.fs)) ==> FreeExact(fp.fs)
  {
    hide Fil.Stable, Fil.Valid, Fil.Sound, FatGeo, DataGeo, ChainOn, ChainOk, Elsewhere, Grown, CursorAt, FreeExact;
    hide Clipped;
    hide Unbroken, Mapped;
    GrownRefl(fp.fs.fat, fp.chain);
    ghost var size := fp.fsize;
    ValidSound(fp);
    if fp.cltbl != null {
      res := SeekFast(fp, ofs);
    } else {
      res := SeekNormal(fp, ofs);
      SoughtNormal(fp, ofs, size, res);
    }
  }

  /** A normal seek inside the file is not cut short. */
  lemma SoughtNormal(fp: Fil, ofs: nat, fsize: nat, res: FResult)
    requires fp.Sound() && fp.err == res
    requires res == FrOk ==>
               && (fp.fptr == SeekTarget(ofs, fsize, fp.canWrite)
                  || Clipped(fp.fs.geo, fp.fs.fat, fp.chain, fp.fptr, fp.canWrite, ofs))
               && fp.fsize == if fp.fptr > fsize then fp.fptr else fsize
    ensures res == FrOk ==> Sought(fp.fs.geo, fp.fs.fat, fp.chain, fp.fptr, fsize, ofs, fp.canWrite)
  {
    hide Fil.Stable, FatGeo, DataGeo, ChainOn, ChainOk, CursorAt, Clipped;
    if res == FrOk {
      ClippedBelow(fp, ofs);
      if ofs <= fsize {
        NotClippedInside(fp, ofs);
      }
    }
  }

  lemma AskingMeans(cltbl: array?<nat>, ofs: nat)
    ensures AsksForMap(cltbl, ofs) <==> cltbl != null && ofs == 0xFFFF_FFFF
  {
  }

  /** f_lseek: with a table attached and the offset CREATE_LINKMAP it makes the link map and moves nothing, else
      it goes to the offset. */
  method FSeek(fp: Fil, ofs: nat) returns (res: FResult)
    requires fp.Open() && ofs < 0x1_0000_0000
    requires fp.err == FrOk && AsksForMap(fp.cltbl, ofs) ==> fp.cltbl.Length > 0 && fp.cltbl[0] <= fp.cltbl.Length
    requires fp.err == FrOk && !AsksForMap(fp.cltbl, ofs) ==> fp.MapUsable()
    modifies fp.fs`disk, fp.fs`logical, fp.fs`fat, fp.fs`wflag, fp.fs`winsect, fp.fs`lastClust, fp.fs`freeClust
    modifies fp.fs`fsiDirty, fp.fs.win, fp`chain, fp`sclust, fp`clust, fp`fptr, fp`dirty, fp`dsect, fp`fsize, fp`written
    modifies fp`contents, fp.buf
    modifies fp`err, fp`mapOk, fp`mapOf, fp.cltbl
    ensures fp.Open() && (old(fp.Sound()) ==> fp.Sound())
    ensures old(fp.err) != FrOk ==> res == fp.err && unchanged(fp, fp.buf, fp.fs, fp.fs.win)
    ensures fp.err == if old(fp.err) == FrOk && res == FrNotEnoughCore then FrOk else res
    ensures AsksForMap(fp.cltbl, ofs) <==> fp.cltbl != null && ofs == 0xFFFF_FFFF
    ensures old(fp.err) == FrOk && AsksForMap(fp.cltbl, ofs) ==>
              && MapMade(fp.fs.fat, fp.chain, old(Items(fp.cltbl)), Items(fp.cltbl), res)
              && fp.mapOk == (res == FrOk) && (fp.mapOk ==> fp.mapOf == fp.chain)
    ensures old(fp.err) == FrOk && !AsksForMap(fp.cltbl, ofs) ==>
              && Moved(fp.fs.geo, old(fp.fs.fat), fp.fs.fat, fp.chain, fp.mapOf, fp.fptr, old(fp.fsize), fp.fsize,
                 ofs, fp.canWrite, fp.cltbl != null, res)
              && fp.mapOk == old(fp.mapOk) && fp.mapOf == old(fp.mapOf) && Items(fp.cltbl) == old(Items(fp.cltbl))
    ensures AsksForMap(fp.cltbl, ofs) ==>
              fp.fptr == old(fp.fptr) && fp.fsize == old(fp.fsize) && fp.chain == old(fp.chain)
    ensures old(fp.contents) <= fp.contents && (res != FrOk || fp.cltbl != null ==> fp.contents == old(fp.contents))
    ensures Elsewhere(fp.fs.geo, fp.chain, old(fp.fs.logical), fp.fs.logical)
    ensures Grown(old(fp.fs.fat), fp.fs.fat, old(fp.chain), fp.chain)
    ensures res == FrOk ==> LongEnough(fp.fs.geo, old(fp.chain), fp.chain, fp.fptr)
    ensures fp.cltbl != null ==> fp.chain == old(fp.chain) && fp.fs.fat == old(fp.fs.fat)
    ensures fp.written == (old(fp.written) || fp.fsize > old(fp.fsize))
    ensures old(FreeExact(fp.fs)) ==> FreeExact(fp.fs)
  {
    OpenMeans(fp);
    AskingMeans(fp.cltbl, ofs);
    hide *;
    GrownRefl(fp.fs.fat, fp.chain);
    LongEnoughRefl(fp.fs.geo, fp.chain, fp.fptr);
    ElsewhereRefl(fp.fs.geo, fp.chain, fp.fs.logical);
    if fp.err != FrOk {
      return fp.err;
    }
    ValidSound(fp);
    if AsksForMap(fp.cltbl, ofs) {
      res := CreateLinkMap(fp);
      ValidSound(fp);
    } else {
      res := MoveTo(fp, ofs);
    }
    SoundOpen(fp);
  }

  /** Offset, chain and size determine the cluster and, inside a sector, the buffered sector: fast and normal
      seek to the same offset end in the same place. */
  lemma CursorUnique(g: Geo, ch: seq<nat>, at: nat, clust: nat, dsect: nat, clust': nat, dsect': nat, len: nat)
    requires CursorAt(g, ch, at, clust, dsect, len) && CursorAt(g, ch, at, clust', dsect', len)
    ensures at > 0 ==> clust == clust'
    ensures at % 512 != 0 ==> dsect == dsect'
  {
  }
}
