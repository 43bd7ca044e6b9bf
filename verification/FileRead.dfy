/** f_read. */
module FileRead {
  import opened Bytes
  import opened Geometry
  import opened Volume
  import opened Chains
  import opened DataArea
  import opened LinkMap
  import opened FileObject
  import opened FileBuffer

  // ----- how far a link map leads -----

  /** The cluster of byte `at` of a file with clusters of `c` sectors, and its offset there. */
  function Index(at: nat, c: nat): nat
    requires c > 0
  {
    at / 512 / c
  }

  function Offset(at: nat, c: nat): nat
    requires c > 0
  {
    at / 512 % c * 512 + at % 512
  }

  function ClusterBytes(c: nat): nat {
    c * 512
  }

  /** Byte `at` is the first of a cluster. */
  predicate Boundary(at: nat, c: nat)
    requires c > 0
  {
    at % 512 == 0 && at / 512 % c == 0
  }

  lemma WhereIs(at: nat, c: nat)
    requires c > 0
    ensures at == Index(at, c) * ClusterBytes(c) + Offset(at, c) && Offset(at, c) < ClusterBytes(c)
    ensures Boundary(at, c) <==> Offset(at, c) == 0
  {
    var q, r := at / 512 / c, at / 512 % c;
    assert at / 512 == q * c + r;
    assert (q * c) * 512 == q * (c * 512);
    MulMonotone(r + 1, c, 512);
  }

  /** The first cluster that starts at `at` or behind, and behind the first `k` clusters of the file and its first. */
  function StopIndex(c: nat, at: nat, k: nat): (s: nat)
    requires c > 0
  {
    var q := if Boundary(at, c) then Index(at, c) else Index(at, c) + 1;
    if q >= k && q >= 1 then q else if k >= 1 then k else 1
  }

  /** Where a transfer from byte `at` on asks a map of `k` clusters for a cluster it does not have; for the first
      cluster of a file no map is asked. */
  function MapStop(c: nat, at: nat, k: nat): nat
    requires c > 0
  {
    StopIndex(c, at, k) * ClusterBytes(c)
  }

  /** The transfer stops at `at` itself if and only if that is such a boundary. */
  lemma StopAhead(c: nat, at: nat, k: nat)
    requires c > 0
    ensures MapStop(c, at, k) >= at
    ensures MapStop(c, at, k) == at <==> Boundary(at, c) && at > 0 && at / 512 / c >= k
  {
    WhereIs(at, c);
    hide Boundary, Offset, ClusterBytes;
    Stops(ClusterBytes(c), Index(at, c), Offset(at, c), StopIndex(c, at, k), at, k);
  }

  lemma Stops(u: nat, q: nat, x: nat, stop: nat, at: nat, k: nat)
    requires at == q * u + x && x < u
    requires var first := if x == 0 then q else q + 1;
             stop == if first >= k && first >= 1 then first else if k >= 1 then k else 1
    ensures stop * u >= at && (stop * u == at <==> x == 0 && at > 0 && q >= k)
  {
    assert (q + 1) * u == q * u + u;
    if stop > q {
      MulMonotone(q + 1, stop, u);
    }
    assert q == 0 ==> q * u == 0;
    assert q >= 1 ==> q * u >= u by {
      if q >= 1 {
        MulMonotone(1, q, u);
      }
    }
  }

  /** Bytes `at` to `at + n - 1` lie in one cluster. */
  predicate InCluster(c: nat, at: nat, n: nat)
    ensures InCluster(c, at, n) ==> c > 0
  {
    c > 0 && Offset(at, c) + n <= ClusterBytes(c)
  }

  /** A step within a cluster does not change where the transfer will stop. */
  lemma StopSame(c: nat, at: nat, n: nat, k: nat)
    requires n > 0 && InCluster(c, at, n) && MapStop(c, at, k) != at
    ensures MapStop(c, at + n, k) == MapStop(c, at, k) >= at + n
  {
    hide Boundary, Offset, ClusterBytes, Index, MapStop;
    StopAhead(c, at + n, k);
    NextPlace(c, at, n);
    WhereIs(at, c);
    assert StopIndex(c, at + n, k) == StopIndex(c, at, k) by {
      NotHere(c, at, k);
    }
    hide *;
    SameStop(c, at, at + n, k);
  }

  lemma SameStop(c: nat, at: nat, at': nat, k: nat)
    requires c > 0 && StopIndex(c, at', k) == StopIndex(c, at, k)
    ensures MapStop(c, at', k) == MapStop(c, at, k)
  {
  }

  /** No map of `k` clusters ends before they do, nor before the first cluster does. */
  lemma StopBehind(c: nat, at: nat, k: nat)
    requires c > 0
    ensures MapStop(c, at, k) >= k * (c * 512) && MapStop(c, at, k) >= c * 512
  {
    var s := StopIndex(c, at, k);
    MulMonotone(k, s, c * 512);
    MulMonotone(1, s, c * 512);
  }

  lemma NotHere(c: nat, at: nat, k: nat)
    requires c > 0 && MapStop(c, at, k) != at
    ensures Boundary(at, c) ==> Index(at, c) < k || Index(at, c) == 0
  {
    WhereIs(at, c);
    hide Boundary, Offset, ClusterBytes;
    Stops(ClusterBytes(c), Index(at, c), Offset(at, c), StopIndex(c, at, k), at, k);
  }

  /** Behind a step within a cluster: in the same cluster, or on the boundary behind it. */
  lemma NextPlace(c: nat, at: nat, n: nat)
    requires c > 0 && n > 0 && Offset(at, c) + n <= ClusterBytes(c)
    ensures Index(at + n, c) == if Boundary(at + n, c) then Index(at, c) + 1 else Index(at, c)
  {
    hide *;
    WhereIs(at, c);
    WhereIs(at + n, c);
    Quotients(ClusterBytes(c), Index(at, c), Offset(at, c) + n, Index(at + n, c), Offset(at + n, c));
  }

  lemma Quotients(u: nat, q: nat, x: nat, q': nat, r': nat)
    requires 0 < x <= u && r' < u && q' * u + r' == q * u + x
    ensures if r' == 0 then q' == q + 1 else q' == q
  {
    var v := q' * u + r';
    DivUnique(v, u, q', r');
    if x < u {
      DivUnique(v, u, q, x);
    } else {
      assert (q + 1) * u == q * u + u;
      DivUnique(v, u, q + 1, 0);
    }
  }

  /** At the file pointer the link map is asked for a cluster it does not have. */
  ghost predicate MapEnds(fp: Fil)
    requires fp.fs.geo.csize > 0
    reads fp`cltbl, fp`fptr, fp`mapOf, fp.fs`geo
  {
    && fp.cltbl != null && fp.fptr > 0 && Boundary(fp.fptr, fp.fs.geo.csize)
    && fp.fptr / 512 / fp.fs.geo.csize >= |fp.mapOf|
  }

  // ----- the transfer -----

  /** The cluster at a cluster boundary inside the file; 0 when the link map does not have it. */
  method FindReadCluster(fp: Fil) returns (clst: nat)
    requires fp.Stable() && fp.Cursor() && fp.MapUsable() && fp.fptr < |fp.contents|
    requires Boundary(fp.fptr, fp.fs.geo.csize)
    modifies fp.fs`disk, fp.fs`wflag, fp.fs`winsect, fp.fs.win
    ensures fp.Stable()
    ensures if MapEnds(fp) then clst == 0 else ClusterIs(fp.fs.geo, fp.chain, fp.fptr, clst)
  {
    hide Fatfs.Valid, Avail, DataGeo, BufferOk, SectorIs;
    var k, c := fp.fptr / 512, fp.fs.geo.csize;
    assert BytePlaced(fp.fs.geo, fp.chain, fp.View(), fp.fptr, fp.contents[fp.fptr]);
    assert k / c < |fp.chain|;
    if fp.fptr == 0 {
      clst := fp.sclust;
    } else {
      CursorBoundary(fp.fs.geo, fp.chain, fp.fptr, fp.clust, fp.dsect, |fp.contents|);
      if fp.cltbl != null {
        clst := ClmtClust(fp.cltbl, fp.fptr, c, fp.mapOf);
      } else {
        ChainNext(fp.fs.fat, fp.chain, fp.sclust, k / c - 1, fp.clust);
        clst := FollowChain(fp, fp.clust);
      }
    }
  }

  /** The sector of byte `at`: that of its cluster plus the offset in the cluster. */
  lemma SectorHere(fp: Fil, at: nat, clst: nat)
    requires fp.Stable() && ClusterIs(fp.fs.geo, fp.chain, at, clst)
    ensures clst >= 2 && ClustToSect(fp.fs.geo, clst) != 0
    ensures SectorIs(fp.fs.geo, fp.chain, at / 512, ClustToSect(fp.fs.geo, clst) + at / 512 % fp.fs.geo.csize)
  {
    hide Fatfs.Valid, Avail, DataGeo, BufferOk, Holds, ClusterSector;
    ghost var q := at / 512 / fp.fs.geo.csize;
    assert InTable(fp.fs.fat, fp.chain[q]);
    assert ClusterSector(fp.fs.geo, clst) > 0 by { ClusterSectorRange(fp.fs.geo, |fp.fs.disk|, clst, 0); }
  }

  /** Enters the sector at the file pointer, on a sector boundary inside the file, unless the map ends there. */
  method EnterSector(fp: Fil) returns (ok: bool, sect: nat, csect: nat)
    requires fp.Stable() && fp.Cursor() && fp.MapUsable() && fp.fptr < |fp.contents| && fp.fptr % 512 == 0
    modifies fp.fs`disk, fp.fs`wflag, fp.fs`winsect, fp.fs.win, fp`clust
    ensures fp.Stable() && (ok <==> !MapEnds(fp))
    ensures if ok then AtSector(fp.fs.geo, fp.chain, fp.fptr, fp.clust, sect, csect) else fp.Cursor()
  {
    hide *;
    StableSize(fp);
    csect := fp.fptr / 512 % fp.fs.geo.csize;
    ok, sect := true, 0;
    IsBoundary(fp);
    if csect == 0 {
      var clst := FindReadCluster(fp);
      if clst < 2 {
        LowCluster(fp, clst);
        return false, 0, 0;
      }
      fp.clust := clst;
    } else {
      CursorInside(fp.fs.geo, fp.chain, fp.fptr, fp.clust, fp.dsect, |fp.contents|);
    }
    SectorHere(fp, fp.fptr, fp.clust);
    sect := ClustToSect(fp.fs.geo, fp.clust) + csect;
    AtSectorHere(fp.fs.geo, fp.chain, fp.fptr, fp.clust);
  }

  lemma StableSize(fp: Fil)
    requires fp.Stable()
    ensures fp.fs.geo.csize > 0
  {
  }

  lemma IsBoundary(fp: Fil)
    requires fp.fs.geo.csize > 0 && fp.fptr % 512 == 0
    ensures Boundary(fp.fptr, fp.fs.geo.csize) <==> fp.fptr / 512 % fp.fs.geo.csize == 0
    ensures MapEnds(fp) ==> Boundary(fp.fptr, fp.fs.geo.csize)
    ensures fp.Cursor() <==> CursorAt(fp.fs.geo, fp.chain, fp.fptr, fp.clust, fp.dsect, |fp.contents|)
    ensures fp.fptr == 0 ==> Boundary(0, fp.fs.geo.csize)
  {
  }

  lemma AtSectorHere(g: Geo, ch: seq<nat>, at: nat, clust: nat)
    requires at % 512 == 0 && ClusterIs(g, ch, at, clust)
    requires SectorIs(g, ch, at / 512, ClustToSect(g, clust) + at / 512 % g.csize)
    ensures AtSector(g, ch, at, clust, ClustToSect(g, clust) + at / 512 % g.csize, at / 512 % g.csize)
  {
    hide ClusterIs, SectorIs;
  }

  /** No cluster of a file has a number below 2. */
  lemma LowCluster(fp: Fil, clst: nat)
    requires fp.Stable() && clst < 2
    ensures !ClusterIs(fp.fs.geo, fp.chain, fp.fptr, clst)
  {
    hide Fatfs.Valid, Avail, DataGeo, BufferOk, Holds;
  }

  /** Unsigned 32-bit difference. */
  function Sub32(a: int, b: int): nat {
    (a - b) % 0x1_0000_0000
  }

  lemma Sub32Less(a: nat, b: nat, n: nat)
    requires a < 0x1_0000_0000 && b + n <= 0x1_0000_0000
    ensures Sub32(a, b) < n <==> b <= a < b + n
    ensures b <= a ==> Sub32(a, b) == a - b
  {
  }

  /** Bytes `i` of the file lie where the view shows them, sector by sector of one cluster. */
  lemma ViewBytes(g: Geo, ch: seq<nat>, v: seq<Sector>, c: seq<byte>, k: nat, s: nat, cc: nat, i: nat)
    requires Holds(g, ch, v, c) && SectorIs(g, ch, k, s) && k % g.csize + cc <= g.csize
    requires i < cc * 512 && k * 512 + i < |c|
    ensures s + i / 512 < |v| && c[k * 512 + i] == v[s + i / 512][i % 512]
  {
    hide SectorOf;
    var j := k * 512 + i;
    assert BytePlaced(g, ch, v, j, c[j]);
    assert j / 512 == k + i / 512 && j % 512 == i % 512;
    SectorsInRow(g, ch, k, s, i / 512);
  }

  /** Reads whole sectors straight from the drive and patches in a dirty buffer that covers one of them. */
  method ReadDirect(fp: Fil, rbuff: array<byte>, o: nat, sect: nat, cc: nat, ghost clust: nat, ghost csect: nat)
    requires fp.Stable() && AtSector(fp.fs.geo, fp.chain, fp.fptr, clust, sect, csect) && csect + cc <= fp.fs.geo.csize
    requires cc > 0 && fp.fptr + cc * 512 <= |fp.contents| && o + cc * 512 <= rbuff.Length
    requires rbuff != fp.buf && rbuff != fp.fs.win
    modifies rbuff
    ensures rbuff[..o] == old(rbuff[..o])
    ensures rbuff[o..o + cc * 512] == fp.contents[fp.fptr..fp.fptr + cc * 512]
  {
    hide Fatfs.Valid, Avail, DataGeo, ChainOk, Holds, SectorIs;
    var fs := fp.fs;
    ghost var k := fp.fptr / 512;
    ViewBytes(fs.geo, fp.chain, fp.View(), fp.contents, k, sect, cc, cc * 512 - 1);
    DiskRead(fs, rbuff, o, sect, cc);
    Sub32Less(fp.dsect, sect, cc);
    if fp.dirty && Sub32(fp.dsect, sect) < cc {
      var at := o + Sub32(fp.dsect, sect) * 512;
      forall i | at <= i < at + 512 {
        rbuff[i] := fp.buf[i - at];
      }
    }
    ghost var got, want := rbuff[o..o + cc * 512], fp.contents[fp.fptr..fp.fptr + cc * 512];
    forall i: nat | i < cc * 512 ensures got[i] == want[i] {
      ViewBytes(fs.geo, fp.chain, fp.View(), fp.contents, k, sect, cc, i);
    }
    assert got == want;
  }

  /** Copies bytes of the sector in the buffer that stands for sector `k` of the file. */
  method CopyOut(fp: Fil, rbuff: array<byte>, o: nat, n: nat)
    requires fp.Stable() && !fp.growing && SectorIs(fp.fs.geo, fp.chain, fp.fptr / 512, fp.dsect)
    requires fp.fptr % 512 + n <= 512 && fp.fptr + n <= |fp.contents| && o + n <= rbuff.Length
    requires rbuff != fp.buf && rbuff != fp.fs.win
    modifies rbuff
    ensures rbuff[..o] == old(rbuff[..o])
    ensures rbuff[o..o + n] == fp.contents[fp.fptr..fp.fptr + n]
  {
    hide Fatfs.Valid, Avail, DataGeo, Holds, ChainOk, SectorIs, SectorOf;
    var fs := fp.fs;
    DataSector(fs.geo, |fs.disk|, fs.fat, fp.chain, fp.sclust, fp.fptr / 512, fp.dsect);
    forall i | o <= i < o + n {
      rbuff[i] := fp.buf[fp.fptr % 512 + (i - o)];
    }
    ghost var got, want := rbuff[o..o + n], fp.contents[fp.fptr..fp.fptr + n];
    forall i: nat | i < n ensures got[i] == want[i] {
      assert (fp.fptr / 512) * 512 + (fp.fptr % 512 + i) == fp.fptr + i;
      ViewBytes(fs.geo, fp.chain, fp.View(), fp.contents, fp.fptr / 512, fp.dsect, 1, fp.fptr % 512 + i);
    }
    assert got == want;
  }

  /** Whole sectors read directly, up to the end of the cluster; the file pointer moves behind them. */
  method ReadSectors(fp: Fil, rbuff: array<byte>, o: nat, btr: nat, sect: nat, csect: nat) returns (rcnt: nat)
    requires fp.Stable() && btr >= 512 && |fp.contents| < 0x1_0000_0000
    requires fp.fptr + btr <= |fp.contents| && o + btr <= rbuff.Length
    requires AtSector(fp.fs.geo, fp.chain, fp.fptr, fp.clust, sect, csect)
    requires rbuff != fp.buf && rbuff != fp.fs.win
    modifies fp`fptr, rbuff
    ensures fp.Stable() && fp.Cursor() && 0 < rcnt <= btr && fp.fptr == old(fp.fptr) + rcnt
    ensures o + rcnt <= rbuff.Length && rbuff[..o + rcnt] == old(rbuff[..o]) + fp.contents[old(fp.fptr)..fp.fptr]
    ensures InCluster(fp.fs.geo.csize, old(fp.fptr), rcnt)
  {
    hide Fil.Stable, FatGeo, DataGeo, ChainOk, ChainOn, CursorAt, ClusterIs, SectorIs;
    var cc := btr / 512;
    if csect + cc > fp.fs.geo.csize {
      cc := fp.fs.geo.csize - csect;
    }
    ReadDirect(fp, rbuff, o, sect, cc, fp.clust, csect);
    rcnt := 512 * cc;
    assert rbuff[..o + rcnt] == rbuff[..o] + rbuff[o..o + rcnt];
    CursorMovesSectors(fp.fs.geo, fp.chain, fp.fptr, fp.clust, sect, csect, cc, fp.dsect, |fp.contents|);
    fp.fptr := fp.fptr + rcnt;
  }

  /** Bytes of one sector read through the buffer; the file pointer moves behind them. */
  method ReadPart(fp: Fil, rbuff: array<byte>, o: nat, btr: nat) returns (rcnt: nat)
    requires fp.Stable() && !fp.growing && btr > 0 && |fp.contents| < 0x1_0000_0000
    requires fp.fptr + btr <= |fp.contents| && o + btr <= rbuff.Length
    requires ClusterIs(fp.fs.geo, fp.chain, fp.fptr, fp.clust)
    requires SectorIs(fp.fs.geo, fp.chain, fp.fptr / 512, fp.dsect)
    requires rbuff != fp.buf && rbuff != fp.fs.win
    modifies fp`fptr, rbuff
    ensures fp.Stable() && fp.Cursor() && 0 < rcnt <= btr && fp.fptr == old(fp.fptr) + rcnt
    ensures o + rcnt <= rbuff.Length && rbuff[..o + rcnt] == old(rbuff[..o]) + fp.contents[old(fp.fptr)..fp.fptr]
    ensures InCluster(fp.fs.geo.csize, old(fp.fptr), rcnt)
  {
    hide Fil.Stable, FatGeo, DataGeo, ChainOk, ChainOn, SectorIs, ClusterIs, CursorAt;
    MulMonotone(fp.fptr / 512 % fp.fs.geo.csize + 1, fp.fs.geo.csize, 512);
    rcnt := 512 - fp.fptr % 512;
    if rcnt > btr {
      rcnt := btr;
    }
    CopyOut(fp, rbuff, o, rcnt);
    assert rbuff[..o + rcnt] == rbuff[..o] + rbuff[o..o + rcnt];
    CursorMovesInside(fp.fs.geo, fp.chain, fp.fptr, rcnt, fp.clust, fp.dsect, |fp.contents|);
    fp.fptr := fp.fptr + rcnt;
  }

  /** One round of the transfer loop: at least one byte, at most to the end of a sector or, directly, of a cluster. It
      fails when the link map has no cluster there. */
  method ReadStep(fp: Fil, rbuff: array<byte>, o: nat, btr: nat) returns (ok: bool, rcnt: nat)
    requires fp.Valid() && fp.MapUsable() && 0 < btr && fp.fptr + btr <= fp.fsize && o + btr <= rbuff.Length
    requires rbuff != fp.buf && rbuff != fp.fs.win
    modifies fp.fs`disk, fp.fs`logical, fp.fs`wflag, fp.fs`winsect, fp.fs.win
    modifies fp`fptr, fp`clust, fp`dsect, fp`dirty, fp.buf, rbuff
    ensures fp.Valid() && fp.MapUsable() && fp.fs.geo.csize > 0 && fp.fptr == old(fp.fptr) + rcnt
    ensures fp.err == old(fp.err) && fp.cltbl == old(fp.cltbl) && fp.contents == old(fp.contents)
    ensures fp.fs.geo == old(fp.fs.geo) && fp.chain == old(fp.chain) && fp.fsize == old(fp.fsize)
    ensures ok <==> fp.cltbl == null || MapStop(fp.fs.geo.csize, old(fp.fptr), |fp.mapOf|) != old(fp.fptr)
    ensures if ok then 0 < rcnt <= btr && InCluster(fp.fs.geo.csize, old(fp.fptr), rcnt) else rcnt == 0
    ensures o + rcnt <= rbuff.Length && rbuff[..o + rcnt] == old(rbuff[..o]) + fp.contents[old(fp.fptr)..fp.fptr]
    ensures Elsewhere(fp.fs.geo, fp.chain, old(fp.fs.logical), fp.fs.logical)
  {
    hide Fil.Stable, FatGeo, DataGeo, ChainOk, ChainOn, SectorIs, Elsewhere, ClusterIs, MapStop;
    StopAhead(fp.fs.geo.csize, fp.fptr, |fp.mapOf|);
    ElsewhereRefl(fp.fs.geo, fp.chain, fp.fs.logical);
    ok := true;
    if fp.fptr % 512 == 0 {
      var sect, csect;
      ok, sect, csect := EnterSector(fp);
      if !ok {
        return false, 0;
      }
      if btr / 512 > 0 {
        rcnt := ReadSectors(fp, rbuff, o, btr, sect, csect);
        return;
      }
      LoadBuffer(fp, sect, fp.fptr / 512);
    } else {
      CursorInside(fp.fs.geo, fp.chain, fp.fptr, fp.clust, fp.dsect, |fp.contents|);
    }
    rcnt := ReadPart(fp, rbuff, o, btr);
  }

  /** How many of `want` bytes a file gives from byte `at` on: all of them, unless a link map of `k` clusters ends. */
  function Given(c: nat, at: nat, mapped: bool, k: nat, want: nat): (n: nat)
    requires c > 0
    ensures n <= want
  {
    StopAhead(c, at, k);
    if mapped && MapStop(c, at, k) < at + want then MapStop(c, at, k) - at else want
  }

  lemma GivenAll(c: nat, at: nat, mapped: bool, k: nat, want: nat, br: nat)
    requires c > 0 && br <= want && (mapped ==> MapStop(c, at, k) >= at + br)
    requires br < want ==> mapped && MapStop(c, at, k) == at + br
    ensures Given(c, at, mapped, k, want) == br
  {
    hide MapStop;
  }

  lemma Joined(s: seq<byte>, i: nat, j: nat, k: nat)
    requires i <= j <= k <= |s|
    ensures s[i..j] + s[j..k] == s[i..k] && s[i..i] == []
  {
  }

  lemma ReadableFile(fp: Fil)
    requires fp.Valid()
    ensures fp.fs.geo.csize > 0 && |fp.contents| == fp.fsize
  {
    hide Fil.Stable, CursorAt;
  }

  /** The transfer loop of f_read for `want` bytes of the file. */
  method ReadBytes(fp: Fil, rbuff: array<byte>, want: nat) returns (res: FResult, br: nat)
    requires fp.Valid() && fp.err == FrOk && fp.MapUsable() && fp.fptr + want <= fp.fsize && want <= rbuff.Length
    requires rbuff != fp.buf && rbuff != fp.fs.win
    modifies fp.fs`disk, fp.fs`logical, fp.fs`wflag, fp.fs`winsect, fp.fs.win
    modifies fp`fptr, fp`clust, fp`dsect, fp`dirty, fp.buf, rbuff
    ensures fp.Valid() && fp.err == FrOk && fp.fs.geo.csize > 0
    ensures br == Given(fp.fs.geo.csize, old(fp.fptr), fp.cltbl != null, |fp.mapOf|, want)
    ensures br <= want && res == if br < want then FrIntErr else FrOk
    ensures fp.fptr == old(fp.fptr) + br && rbuff[..br] == fp.contents[old(fp.fptr)..fp.fptr]
    ensures Elsewhere(fp.fs.geo, fp.chain, old(fp.fs.logical), fp.fs.logical)
  {
    hide *;
    ReadableFile(fp);
    ElsewhereRefl(fp.fs.geo, fp.chain, fp.fs.logical);
    res, br := FrOk, 0;
    var btr := want;
    ghost var g, c, k, at0, mapped := fp.fs.geo, fp.fs.geo.csize, |fp.mapOf|, fp.fptr, fp.cltbl != null;
    ghost var ch, bytes, l := fp.chain, fp.contents, fp.fs.logical;
    StopAhead(c, at0, k);
    Joined(bytes, at0, at0, at0);
    while btr > 0
      invariant fp.Valid() && fp.MapUsable() && fp.err == FrOk && br + btr == want && fp.fptr == at0 + br
      invariant fp.fs.geo == g && fp.chain == ch && fp.contents == bytes && (fp.cltbl != null) == mapped
      invariant rbuff[..br] == bytes[at0..fp.fptr] && Elsewhere(g, ch, l, fp.fs.logical)
      invariant mapped ==> MapStop(c, fp.fptr, k) == MapStop(c, at0, k) >= fp.fptr
    {
      ghost var logical, at := fp.fs.logical, fp.fptr;
      var ok, rcnt := ReadStep(fp, rbuff, br, btr);
      ElsewhereTrans(g, ch, ch, l, logical, fp.fs.logical);
      if !ok {
        res := FrIntErr;
        break;
      }
      if mapped {
        StopSame(c, at, rcnt, k);
      }
      Joined(bytes, at0, at, fp.fptr);
      br, btr := br + rcnt, btr - rcnt;
    }
    GivenAll(c, at0, mapped, k, want, br);
  }

  /** f_read: the next `btr` bytes, or those up to the end of the file, wherever they are cached. It is aborted if and
      only if a link map ends before. */
  method FRead(fp: Fil, rbuff: array<byte>, btr: nat) returns (res: FResult, br: nat)
    requires fp.Open() && (fp.err == FrOk ==> fp.MapUsable()) && btr <= rbuff.Length
    requires rbuff != fp.buf && rbuff != fp.fs.win
    modifies fp.fs`disk, fp.fs`logical, fp.fs`wflag, fp.fs`winsect, fp.fs.win
    modifies fp`fptr, fp`clust, fp`dsect, fp`dirty, fp`err, fp.buf, rbuff
    ensures fp.Open() && (old(fp.err) == FrOk ==> fp.Valid() && fp.fs.geo.csize > 0)
    ensures old(fp.err) != FrOk || !fp.canRead ==>
              && res == (if old(fp.err) != FrOk then old(fp.err) else FrDenied) && br == 0
              && unchanged(fp, fp.buf, fp.fs, fp.fs.win)
    ensures old(fp.err) == FrOk && fp.canRead ==>
              var want := Min(btr, fp.fsize - old(fp.fptr));
              && old(fp.fptr) <= fp.fsize
              && br == Given(fp.fs.geo.csize, old(fp.fptr), fp.cltbl != null, |fp.mapOf|, want)
              && res == fp.err == (if br < want then FrIntErr else FrOk)
              && fp.fptr == old(fp.fptr) + br && rbuff[..br] == fp.contents[old(fp.fptr)..fp.fptr]
    ensures Elsewhere(fp.fs.geo, fp.chain, old(fp.fs.logical), fp.fs.logical)
  {
    hide Fil.Stable, FatGeo, DataGeo, ChainOk, ChainOn, Elsewhere, CursorAt, Given;
    if fp.err != FrOk || !fp.canRead {
      ElsewhereRefl(fp.fs.geo, fp.chain, fp.fs.logical);
      return if fp.err != FrOk then fp.err else FrDenied, 0;
    }
    var remain := fp.fsize - fp.fptr;
    res, br := ReadBytes(fp, rbuff, Min(btr, remain));
    if res != FrOk {
      fp.err := res;
    }
  }

  function Min(a: nat, b: nat): nat {
    if a < b then a else b
  }
}
