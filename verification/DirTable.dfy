/** Directory tables: dir_sdi and dir_next on a static root directory and on chained tables. */
module DirTable {
  import opened Bytes
  import opened Geometry
  import opened Volume
  import opened FatAccess
  import opened Chains
  import opened ClusterAlloc
  import opened DataArea
  import opened FileObject

  class Dir {
    const fs: Fatfs
    const sclust: nat        // table start cluster, 0: root directory
    var index: nat           // current entry
    var clust: nat           // current cluster, 0: static table
    var sect: nat            // current sector
    var dir: nat             // offset of the entry in the window
    ghost var chain: seq<nat>  // clusters of the table, none for a static one

    constructor (volume: Fatfs, start: nat, ghost clusters: seq<nat>)
      ensures fs == volume && sclust == start && chain == clusters
    {
      fs, sclust, chain := volume, start, clusters;
      index, clust, sect, dir := 0, 0, 0, 0;
    }

    /** The table is where `sclust` says: the fixed area of a FAT12/16 root, or a complete chain. */
    ghost predicate Table()
      reads this`chain, fs`fat, fs`geo
    {
      TableAt(fs.geo, fs.fat, sclust, chain)
    }

    /** The object stands on entry `i`. */
    ghost predicate AtEntry(i: nat)
      reads this`index, this`clust, this`sect, this`dir, this`chain, fs`geo
    {
      && i < Capacity(fs.geo, chain)
      && Placed(fs.geo, chain, i, index, clust, sect, dir)
    }
  }

  ghost predicate TableAt(g: Geo, fat: seq<nat>, sclust: nat, ch: seq<nat>) {
    if sclust == 0 && g.fsType != Fat32 then ch == []
    else ch != [] && IsChain(fat, ch) && ch[0] == if sclust == 0 then g.dirbase else sclust
  }

  /** Number of entries of a table. */
  function Capacity(g: Geo, ch: seq<nat>): nat {
    if ch == [] then g.nRootdir else |ch| * (16 * g.csize)
  }

  /** The sector that holds entries 16k to 16k + 15 of a table. */
  function TableSector(g: Geo, ch: seq<nat>, k: nat): nat {
    if ch == [] then g.dirbase + k
    else if g.csize > 0 && k / g.csize < |ch| && ch[k / g.csize] >= 2 then SectorOf(g, ch, k) else 0
  }

  /** Members of an object that stands on entry `i`. */
  ghost predicate Placed(g: Geo, ch: seq<nat>, i: nat, index: nat, clust: nat, sect: nat, dir: nat) {
    && index == i && sect == TableSector(g, ch, i / 16) && dir == i % 16 * 32
    && clust == (if ch == [] then 0 else if g.csize > 0 && i / 16 / g.csize < |ch| then ch[i / 16 / g.csize] else 0)
  }

  // ----- arithmetic -----

  /** Entries per cluster: both ways of counting agree. */
  lemma EntryCluster(i: nat, c: nat, j: nat, r: nat)
    requires c > 0 && r < 16 * c && i == j * (16 * c) + r
    ensures i / 16 / c == j && i / 16 % c == r / 16 && i % 16 == r % 16
  {
    assert j * (16 * c) == 16 * (j * c);
    assert i / 16 == j * c + r / 16;
    DivUnique(i / 16, c, j, r / 16);
  }

  lemma InCapacity(i: nat, c: nat, n: nat)
    requires c > 0
    ensures i < n * (16 * c) <==> i / 16 / c < n
  {
    DivLess(i / 16, c, n);
    assert n * (16 * c) == 16 * (n * c);
  }

  lemma SectorsPositive(g: Geo, total: nat)
    requires FatGeo(g, total) && DataGeo(g, total)
    ensures g.csize > 0 && g.database > 0 && g.nFatent >= 3 && g.nRootdir % 16 == 0
    ensures (g.fsType != Fat32 ==> g.dirbase > 0) && (g.fsType == Fat32 ==> g.nRootdir == 0)
  {
  }

  /** Cluster `c` holds entry `idx`, as its entry number `rest`. */
  ghost predicate Located(ch: seq<nat>, csize: nat, idx: nat, c: nat, rest: nat) {
    csize > 0 && idx / 16 / csize < |ch| && c == ch[idx / 16 / csize] && rest / 16 == idx / 16 % csize
      && rest % 16 == idx % 16
  }

  /** Where entry `idx` of a chained table is, found by its cluster and the entries left in it. */
  lemma PlacedDynamic(g: Geo, fat: seq<nat>, ch: seq<nat>, idx: nat, c: nat, rest: nat)
    requires g.csize > 0 && g.database > 0 && |fat| == g.nFatent && ch != [] && IsChain(fat, ch)
    requires Located(ch, g.csize, idx, c, rest)
    ensures ClustToSect(g, c) > 0 && idx < Capacity(g, ch)
    ensures Placed(g, ch, idx, idx, c, ClustToSect(g, c) + rest / 16, rest % 16 * 32)
  {
    LinkInside(fat, ch, idx / 16 / g.csize);
    InCapacity(idx, g.csize, |ch|);
    hide IsChain;
    MulMonotone(0, c - 2, g.csize);
  }

  // ----- dir_sdi -----

  /** Follows the chain from `clst` as long as `idx` is not in the cluster at hand. */
  method WalkTable(fs: Fatfs, clst: nat, idx: nat, ghost ch: seq<nat>) returns (res: FResult, c: nat, rest: nat)
    requires fs.Valid() && fs.geo.csize > 0
    modifies fs`disk, fs`wflag, fs`winsect, fs.win
    ensures fs.Valid() && (fs.winsect == old(fs.winsect) || InFirstFat(fs.geo, fs.winsect))
    ensures rest < 16 * fs.geo.csize || res != FrOk
    ensures res in {FrOk, FrIntErr}
    ensures ch != [] && IsChain(fs.fat, ch) && ch[0] == clst ==> (res == FrOk <==> idx < |ch| * (16 * fs.geo.csize))
    ensures ch != [] && IsChain(fs.fat, ch) && ch[0] == clst && res == FrOk ==> Located(ch, fs.geo.csize, idx, c, rest)
  {
    hide Fatfs.Valid, FatGeo, IsChain;
    res, c, rest := FrOk, clst, idx;
    var ic := 16 * fs.geo.csize;
    ghost var j: nat := 0;
    while rest >= ic
      invariant fs.Valid() && (fs.winsect == old(fs.winsect) || InFirstFat(fs.geo, fs.winsect))
      invariant idx == j * ic + rest && ic == 16 * fs.geo.csize
      invariant ch != [] && IsChain(fs.fat, ch) && ch[0] == clst ==> j < |ch| && c == ch[j]
      decreases rest
    {
      if ch != [] && IsChain(fs.fat, ch) && ch[0] == clst {
        LinkInside(fs.fat, ch, j);
      }
      c := GetFat(fs, c);
      if c < 2 || c >= fs.geo.nFatent {
        res := FrIntErr;
        if ch != [] && IsChain(fs.fat, ch) && ch[0] == clst {
          BehindEnd(ch, j, rest, ic, idx);
        }
        return;
      }
      rest := rest - ic;
      j := j + 1;
      assert idx == j * ic + rest by { assert (j - 1) * ic + ic == j * ic; }
    }
    EntryCluster(idx, fs.geo.csize, j, rest);
    if ch != [] && IsChain(fs.fat, ch) && ch[0] == clst {
      InCapacity(idx, fs.geo.csize, |ch|);
    }
  }

  lemma LinkInside(fat: seq<nat>, ch: seq<nat>, j: nat)
    requires IsChain(fat, ch) && j < |ch|
    ensures InTable(fat, ch[j])
            && (if j + 1 < |ch| then fat[ch[j]] == ch[j + 1] && InTable(fat, ch[j + 1]) else fat[ch[j]] >= |fat|)
  {
  }

  lemma BehindEnd(ch: seq<nat>, j: nat, rest: nat, ic: nat, idx: nat)
    requires j + 1 == |ch| && rest >= ic && idx == j * ic + rest
    ensures idx >= |ch| * ic
  {
    assert (j + 1) * ic == j * ic + ic;
  }

  /** The table starts where a table may. */
  ghost predicate Known(dp: Dir)
    reads dp`chain, dp.fs`fat, dp.fs`geo
  {
    dp.Table() && (dp.sclust == 0 || 2 <= dp.sclust < dp.fs.geo.nFatent)
  }

  /** dir_sdi: on a complete table it succeeds exactly for the entries the table has. */
  method DirSdi(dp: Dir, idx: nat) returns (res: FResult)
    requires dp.fs.Valid() && DataGeo(dp.fs.geo, |dp.fs.disk|) && idx < 0x1_0000
    modifies dp.fs`disk, dp.fs`wflag, dp.fs`winsect, dp.fs.win, dp`index, dp`clust, dp`sect, dp`dir
    ensures dp.fs.Valid() && (dp.fs.winsect == old(dp.fs.winsect) || InFirstFat(dp.fs.geo, dp.fs.winsect))
    ensures dp.sclust == 1 || dp.sclust >= dp.fs.geo.nFatent ==> res == FrIntErr
    ensures Known(dp) ==>
              res == (if idx < Capacity(dp.fs.geo, dp.chain) then FrOk else FrIntErr)
              && (res == FrOk ==> dp.AtEntry(idx))
    ensures Known(dp) && res == FrOk ==>
              && dp.index == idx && dp.dir == 32 * (idx % 16) && dp.fs.geo.csize > 0
              && if dp.chain == [] then dp.sect == dp.fs.geo.dirbase + idx / 16
                 else && idx / 16 / dp.fs.geo.csize < |dp.chain|
                      && dp.sect == dp.fs.geo.database + (dp.chain[idx / 16 / dp.fs.geo.csize] - 2) * dp.fs.geo.csize
                                    + idx / 16 % dp.fs.geo.csize
  {
    hide Fatfs.Valid, FatGeo, DataGeo, Placed, Capacity, Known;
    dp.index := idx;
    var clst, sect, rest;
    res, clst, sect, rest := FindPlace(dp, idx);
    if res == FrOk {
      dp.clust := clst;
      dp.sect := sect + rest / 16;
      dp.dir := rest % 16 * 32;
      if Known(dp) {
        PlaceFigures(dp, idx);
      }
    }
  }

  /** The place of an entry in figures: 16 entries of 32 bytes in a sector. */
  lemma PlaceFigures(dp: Dir, i: nat)
    requires Known(dp) && dp.AtEntry(i) && DataGeo(dp.fs.geo, |dp.fs.disk|) && |dp.fs.fat| == dp.fs.geo.nFatent
    ensures dp.index == i && dp.dir == 32 * (i % 16) && dp.fs.geo.csize > 0
    ensures if dp.chain == [] then dp.sect == dp.fs.geo.dirbase + i / 16
            else && i / 16 / dp.fs.geo.csize < |dp.chain|
                 && dp.sect == dp.fs.geo.database + (dp.chain[i / 16 / dp.fs.geo.csize] - 2) * dp.fs.geo.csize
                               + i / 16 % dp.fs.geo.csize
  {
    if dp.chain != [] {
      InCapacity(i, dp.fs.geo.csize, |dp.chain|);
      LinkInside(dp.fs.fat, dp.chain, i / 16 / dp.fs.geo.csize);
    }
    hide IsChain;
  }

  /** Cluster and first sector of entry `idx`, and the entries left behind it. */
  method FindPlace(dp: Dir, idx: nat) returns (res: FResult, clst: nat, sect: nat, rest: nat)
    requires dp.fs.Valid() && DataGeo(dp.fs.geo, |dp.fs.disk|)
    modifies dp.fs`disk, dp.fs`wflag, dp.fs`winsect, dp.fs.win
    ensures dp.fs.Valid() && (dp.fs.winsect == old(dp.fs.winsect) || InFirstFat(dp.fs.geo, dp.fs.winsect))
    ensures dp.sclust == 1 || dp.sclust >= dp.fs.geo.nFatent ==> res == FrIntErr
    ensures Known(dp) ==> res == if idx < Capacity(dp.fs.geo, dp.chain) then FrOk else FrIntErr
    ensures Known(dp) && res == FrOk ==> Placed(dp.fs.geo, dp.chain, idx, idx, clst, sect + rest / 16, rest % 16 * 32)
  {
    hide Fatfs.Valid, FatGeo, DataGeo, IsChain, Placed, Capacity, ClustToSect;
    SectorsPositive(dp.fs.geo, |dp.fs.disk|);
    if Known(dp) {
      StaticTable(dp.fs.geo, dp.fs.fat, dp.sclust, dp.chain, idx);
    }
    hide TableAt;
    clst, sect, rest := dp.sclust, 0, idx;
    if clst == 1 || clst >= dp.fs.geo.nFatent {
      return FrIntErr, clst, sect, rest;
    }
    if clst == 0 && dp.fs.geo.fsType == Fat32 {
      clst := dp.fs.geo.dirbase;
    }
    if clst == 0 {
      if idx >= dp.fs.geo.nRootdir {
        return FrIntErr, clst, sect, rest;
      }
      sect := dp.fs.geo.dirbase;
    } else {
      res, clst, sect, rest := FindInChain(dp.fs, clst, idx, dp.chain);
      if res != FrOk {
        return;
      }
    }
    res := if sect == 0 then FrIntErr else FrOk;
  }

  /** The same in a chained table. */
  method FindInChain(fs: Fatfs, first: nat, idx: nat, ghost ch: seq<nat>)
    returns (res: FResult, clst: nat, sect: nat, rest: nat)
    requires fs.Valid() && fs.geo.csize > 0 && fs.geo.database > 0
    modifies fs`disk, fs`wflag, fs`winsect, fs.win
    ensures fs.Valid() && (fs.winsect == old(fs.winsect) || InFirstFat(fs.geo, fs.winsect))
    ensures ch != [] && IsChain(fs.fat, ch) && ch[0] == first ==>
              res == (if idx < Capacity(fs.geo, ch) then FrOk else FrIntErr)
              && (res == FrOk ==> sect > 0 && Placed(fs.geo, ch, idx, idx, clst, sect + rest / 16, rest % 16 * 32))
  {
    hide Fatfs.Valid, FatGeo, IsChain, Placed, ClustToSect, Located;
    sect := 0;
    res, clst, rest := WalkTable(fs, first, idx, ch);
    if res == FrOk {
      if ch != [] && IsChain(fs.fat, ch) && ch[0] == first {
        PlacedDynamic(fs.geo, fs.fat, ch, idx, clst, rest);
      }
      sect := ClustToSect(fs.geo, clst);
    }
  }

  /** What kind of table it is, by its start cluster. */
  lemma StaticTable(g: Geo, fat: seq<nat>, sclust: nat, ch: seq<nat>, idx: nat)
    requires TableAt(g, fat, sclust, ch) && g.csize > 0 && (g.fsType == Fat32 ==> g.nRootdir == 0)
    ensures sclust == 0 && g.fsType != Fat32 ==> ch == [] && Capacity(g, ch) == g.nRootdir
    ensures idx < g.nRootdir && sclust == 0 && g.fsType != Fat32 ==>
            Placed(g, ch, idx, idx, 0, g.dirbase + idx / 16, idx % 16 * 32)
    ensures !(sclust == 0 && g.fsType != Fat32) ==>
              ch != [] && IsChain(fat, ch) && ch[0] == (if sclust == 0 then g.dirbase else sclust) && ch[0] >= 2
              && Capacity(g, ch) == |ch| * (16 * g.csize)
  {
  }

  // ----- clearing a new cluster -----

  /** Nothing is pending: the drive is the logical drive, whatever the window claims to show. */
  ghost predicate Settled(fs: Fatfs)
    reads fs`geo, fs`disk, fs`logical, fs`fat, fs`wflag, fs.win
  {
    && fs.win.Length == 512 && FatGeo(fs.geo, |fs.disk|) && fs.logical == fs.disk && Mirrored(fs.geo, fs.disk)
    && fs.fat == TableOf(fs.geo, fs.disk) && !fs.wflag
  }

  lemma ValidSettled(fs: Fatfs)
    requires fs.Valid() && !fs.wflag
    ensures Settled(fs)
  {
  }

  /** One turn of the clean-up loop of dir_next: the window, moved to sector `s` by hand and marked dirty, is
      written. */
  method WriteWindowTo(fs: Fatfs, s: nat)
    requires Settled(fs) && s < |fs.disk| && OutsideFats(fs.geo, s)
    modifies fs`disk, fs`logical, fs`wflag, fs`winsect
    ensures Settled(fs) && fs.winsect == s
    ensures fs.disk == old(fs.disk)[s := fs.win[..]]
  {
    CleanWindow(fs.geo, fs.disk, s, fs.win[..]);
    hide TableOf;
    fs.winsect := s;
    fs.wflag := true;
    fs.logical := fs.logical[s := fs.win[..]];
    SyncWindow(fs);
  }

  /** The clean-up of dir_next: every sector of a cluster is filled with zeros through the window, which ends up showing
      the first of them. */
  method ClearCluster(fs: Fatfs, first: nat)
    requires fs.Valid() && first + fs.geo.csize <= |fs.disk| && FatEnd(fs.geo) <= first && fs.geo.csize > 0
    modifies fs`disk, fs`logical, fs`wflag, fs`winsect, fs.win
    ensures fs.Valid() && !fs.wflag && fs.winsect == first && |fs.logical| == |old(fs.logical)|
    ensures forall s: nat | s < |fs.logical| ::
              fs.logical[s] == if first <= s < first + fs.geo.csize then ZeroSector() else old(fs.logical)[s]
  {
    SyncWindow(fs);
    ValidSettled(fs);
    ghost var l := fs.logical;
    forall i | 0 <= i < 512 {
      fs.win[i] := 0;
    }
    assert fs.win[..] == ZeroSector();
    hide Mirrored, TableOf, ZeroSector, Fatfs.Valid, FatGeo;
    fs.winsect := first;
    var c := 0;
    while c < fs.geo.csize
      invariant 0 <= c <= fs.geo.csize && Settled(fs) && fs.win[..] == ZeroSector() && fs.winsect == first + c
                && |fs.disk| == |l|
      invariant forall s: nat | s < |l| :: fs.disk[s] == if first <= s < first + c then ZeroSector() else l[s]
    {
      WriteWindowTo(fs, first + c);
      fs.winsect := fs.winsect + 1;
      c := c + 1;
    }
    fs.winsect := fs.winsect - c;
    SettledValid(fs);
  }

  lemma SettledValid(fs: Fatfs)
    requires Settled(fs) && fs.winsect < |fs.disk| && FatEnd(fs.geo) <= fs.winsect && fs.win[..] == fs.disk[fs.winsect]
    ensures fs.Valid()
  {
    hide TableOf;
  }

  // ----- dir_next -----

  /** A directory object on a volume that works. */
  ghost predicate Usable(dp: Dir)
    reads dp`chain, dp.fs`geo, dp.fs`disk, dp.fs`fat, dp.fs`logical, dp.fs`winsect, dp.fs`wflag, dp.fs`freeClust,
      dp.fs.win
    ensures Usable(dp) ==> dp.fs.Valid() && |dp.fs.fat| >= 3
  {
    dp.fs.Valid() && dp.fs.freeClust < 0x1_0000_0000 && DataGeo(dp.fs.geo, |dp.fs.disk|) && Known(dp)
  }

  lemma CapacitySectors(g: Geo, ch: seq<nat>)
    requires g.nRootdir % 16 == 0
    ensures Capacity(g, ch) % 16 == 0
  {
    if ch != [] {
      var m := |ch| * g.csize;
      assert |ch| * (16 * g.csize) == 16 * m;
    }
  }

  /** The step to entry `n` within a sector. */
  lemma NextInSector(g: Geo, ch: seq<nat>, n: nat, clust: nat, sect: nat, dir: nat)
    requires n > 0 && n % 16 != 0 && n - 1 < Capacity(g, ch) && g.nRootdir % 16 == 0
             && Placed(g, ch, n - 1, n - 1, clust, sect, dir)
    ensures n < Capacity(g, ch) && Placed(g, ch, n, n, clust, sect, n % 16 * 32)
  {
    assert n / 16 == (n - 1) / 16;
    CapacitySectors(g, ch);
    hide TableSector, Capacity;
  }

  lemma NextInStatic(g: Geo, n: nat, sect: nat, dir: nat)
    requires n > 0 && n % 16 == 0 && Placed(g, [], n - 1, n - 1, 0, sect, dir)
    ensures n < g.nRootdir ==> n < Capacity(g, []) && Placed(g, [], n, n, 0, sect + 1, 0)
  {
    assert n / 16 == (n - 1) / 16 + 1;
  }

  /** The step to the next sector of the same cluster. */
  lemma NextInCluster(g: Geo, fat: seq<nat>, ch: seq<nat>, n: nat, clust: nat, sect: nat, dir: nat)
    requires ch != [] && IsChain(fat, ch) && g.csize > 0 && n > 0 && n % 16 == 0 && n / 16 % g.csize != 0
    requires n - 1 < Capacity(g, ch) && Placed(g, ch, n - 1, n - 1, clust, sect, dir)
    ensures n < Capacity(g, ch) && Placed(g, ch, n, n, clust, sect + 1, 0)
  {
    var k := n / 16;
    assert (n - 1) / 16 == k - 1;
    SectorBefore(k, g.csize);
    InCapacity(n - 1, g.csize, |ch|);
    InCapacity(n, g.csize, |ch|);
    LinkInside(fat, ch, k / g.csize);
    SameClusterMod(k, g.csize);
  }

  lemma SameClusterMod(k: nat, c: nat)
    requires c > 0 && k > 0 && k % c != 0
    ensures (k - 1) % c == k % c - 1
  {
    DivUnique(k - 1, c, k / c, k % c - 1);
  }

  /** The last sector of a cluster: which cluster it is, and where the next entry would be. */
  lemma AtClusterEnd(g: Geo, fat: seq<nat>, ch: seq<nat>, n: nat, clust: nat, sect: nat, dir: nat) returns (q: nat)
    requires ch != [] && IsChain(fat, ch) && g.csize > 0 && n > 0 && n % 16 == 0 && n / 16 % g.csize == 0
    requires n - 1 < Capacity(g, ch) && Placed(g, ch, n - 1, n - 1, clust, sect, dir)
    ensures q < |ch| && clust == ch[q] && q + 1 == n / 16 / g.csize && (q + 1 < |ch| <==> n < Capacity(g, ch))
    ensures n == (q + 1) * (16 * g.csize)
  {
    var k := n / 16;
    assert (n - 1) / 16 == k - 1;
    SectorBefore(k, g.csize);
    q := k / g.csize - 1;
    InCapacity(n - 1, g.csize, |ch|);
    InCapacity(n, g.csize, |ch|);
    ExactMultiple(n, g.csize, q + 1);
  }

  lemma ExactMultiple(n: nat, c: nat, j: nat)
    requires c > 0 && n % 16 == 0 && n / 16 % c == 0 && j == n / 16 / c
    ensures n == j * (16 * c)
  {
    assert n / 16 == j * c;
    assert j * (16 * c) == 16 * (j * c);
  }

  /** The first entry of a cluster. */
  lemma PlacedFirst(g: Geo, fat: seq<nat>, ch: seq<nat>, n: nat, q: nat)
    requires q < |ch| && IsChain(fat, ch) && g.csize > 0 && n % 16 == 0 && n / 16 % g.csize == 0
             && q == n / 16 / g.csize
    ensures n < Capacity(g, ch) && Placed(g, ch, n, n, ch[q], ClusterSector(g, ch[q]), 0)
  {
    LinkInside(fat, ch, q);
    InCapacity(n, g.csize, |ch|);
  }

  /** A sector of a table is never sector 0. */
  lemma PlacedPositive(g: Geo, total: nat, fat: seq<nat>, sclust: nat, ch: seq<nat>, i: nat, index: nat, clust: nat,
                       sect: nat, dir: nat)
    requires FatGeo(g, total) && DataGeo(g, total) && TableAt(g, fat, sclust, ch) && i < Capacity(g, ch)
             && Placed(g, ch, i, index, clust, sect, dir)
    ensures sect > 0
  {
    SectorsPositive(g, total);
    if ch != [] {
      InCapacity(i, g.csize, |ch|);
      LinkInside(fat, ch, i / 16 / g.csize);
      MulMonotone(0, ch[i / 16 / g.csize] - 2, g.csize);
    }
  }

  /** A table that grew by one cluster, formerly free and now full of zeros; nothing else outside the FATs changed. */
  ghost predicate Stretched(g: Geo, fat: seq<nat>, l: seq<Sector>, ch: seq<nat>, fat': seq<nat>, l': seq<Sector>,
                            ch': seq<nat>) {
    && |ch'| == |ch| + 1 && Grown(fat, fat', ch, ch') && |l'| == |l|
    && ch'[|ch|] >= 2 && g.csize > 0
    && forall s: nat | s < |l| && OutsideFats(g, s) :: l'[s] == if Owned(g, [ch'[|ch|]], s) then ZeroSector() else l[s]
  }

  lemma FreeOnes(fat: seq<nat>, c: nat)
    requires InTable(fat, c) && fat[c] == 0
    ensures FreeCount(fat) > 0
  {
    ZerosNone(fat, 2, |fat|);
  }

  /** What a table that wants a cluster is told: there is one, there is none, or the search meets a broken entry. */
  ghost predicate GrowthAnswer(fat: seq<nat>, res: FResult)
    requires |fat| >= 2
  {
    || (res == FrOk && FreeCount(fat) > 0)
    || (res == FrDenied && FreeCount(fat) == 0)
    || (res == FrIntErr && !Unbroken(fat))
  }

  /** dir_next behind the last cluster of a table that may grow. */
  method StretchTable(dp: Dir) returns (res: FResult, clst: nat)
    requires Usable(dp) && dp.chain != [] && dp.clust == dp.chain[|dp.chain| - 1]
    modifies dp.fs`disk, dp.fs`logical, dp.fs`fat, dp.fs`wflag, dp.fs`winsect, dp.fs`lastClust, dp.fs`freeClust
    modifies dp.fs`fsiDirty, dp.fs.win
    modifies dp`chain
    ensures Usable(dp)
    ensures GrowthAnswer(old(dp.fs.fat), res)
    ensures res != FrOk ==> dp.chain == old(dp.chain) && dp.fs.fat == old(dp.fs.fat)
    ensures res != FrOk ==> SameOutsideFats(dp.fs.geo, old(dp.fs.logical), dp.fs.logical)
    ensures res == FrOk ==> dp.chain == old(dp.chain) + [clst]
    ensures res == FrOk ==>
            Stretched(dp.fs.geo, old(dp.fs.fat), old(dp.fs.logical), old(dp.chain), dp.fs.fat, dp.fs.logical, dp.chain)
    ensures old(FreeExact(dp.fs)) ==> FreeExact(dp.fs)
  {
    hide Fatfs.Valid, FatGeo, DataGeo, Avail, SameOutsideFats, FreeCount, IsChain, Grown, FreeExact, Owned, ZeroSector;
    hide Unbroken;
    var fs := dp.fs;
    ghost var g, fat, l, ch, last := fs.geo, fs.fat, fs.logical, dp.chain, |dp.chain| - 1;
    ghost var ch';
    TableChain(dp);
    clst, ch' := ExtendChain(fs, dp.clust, ch, ch[0], last);
    dp.chain := ch';
    TableKept(dp, fat, ch);
    if clst == 0 {
      return FrDenied, clst;
    }
    if clst == 1 {
      return FrIntErr, clst;
    }
    GrownFree(fat, fs.fat, ch, ch');
    FreeOnes(fat, clst);
    ghost var l1 := fs.logical;
    ClusterRoom(g, |fs.disk|, clst);
    ClearCluster(fs, ClustToSect(fs.geo, clst));
    ClearedCluster(g, |l|, l, l1, fs.logical, clst);
    res := FrOk;
  }

  lemma TableChain(dp: Dir)
    requires Usable(dp) && dp.chain != []
    ensures ChainOk(dp.fs.fat, dp.chain, dp.chain[0]) && dp.chain[0] != 0 && IsChain(dp.fs.fat, dp.chain)
            && dp.chain[|dp.chain| - 1] != 0
  {
    LinkInside(dp.fs.fat, dp.chain, 0);
    LinkInside(dp.fs.fat, dp.chain, |dp.chain| - 1);
  }

  lemma TableKept(dp: Dir, fat: seq<nat>, ch: seq<nat>)
    requires ch != [] && TableAt(dp.fs.geo, fat, dp.sclust, ch) && ch <= dp.chain
             && (dp.sclust == 0 || 2 <= dp.sclust < dp.fs.geo.nFatent)
    requires ChainOk(dp.fs.fat, dp.chain, ch[0]) && ch[0] != 0
    ensures Known(dp)
  {
  }

  lemma GrownFree(fat: seq<nat>, fat': seq<nat>, ch: seq<nat>, ch': seq<nat>)
    requires Grown(fat, fat', ch, ch') && |ch'| == |ch| + 1
    ensures InTable(fat, ch'[|ch|]) && fat[ch'[|ch|]] == 0
  {
  }

  lemma ClusterRoom(g: Geo, total: nat, c: nat)
    requires FatGeo(g, total) && DataGeo(g, total) && 2 <= c < g.nFatent
    ensures g.csize > 0 && FatEnd(g) <= ClustToSect(g, c) && ClustToSect(g, c) + g.csize <= total
  {
    MulMonotone(c - 1, g.nFatent - 2, g.csize);
    assert (c - 1) * g.csize == (c - 2) * g.csize + g.csize;
  }

  /** The sectors of a cluster are those it owns. */
  lemma ClearedCluster(g: Geo, total: nat, l: seq<Sector>, l1: seq<Sector>, l2: seq<Sector>, c: nat)
    requires FatGeo(g, total) && DataGeo(g, total) && 2 <= c < g.nFatent && |l| == |l1| == |l2| == total
             && SameOutsideFats(g, l, l1)
    requires forall s: nat | s < total :: l2[s] == if ClustToSect(g, c) <= s < ClustToSect(g, c) + g.csize
             then ZeroSector() else l1[s]
    ensures forall s: nat | s < total && OutsideFats(g, s) :: l2[s] == if Owned(g, [c], s) then ZeroSector() else l[s]
  {
    hide ZeroSector, FatGeo;
    assert g.csize > 0;
    hide DataGeo;
    forall s: nat | s < total && OutsideFats(g, s) ensures Owned(g, [c], s) <==>
      ClustToSect(g, c) <= s < ClustToSect(g, c) + g.csize {
      OwnedRange(g, s, c);
    }
  }

  lemma OwnedRange(g: Geo, s: nat, c: nat)
    requires g.csize > 0 && 2 <= c < g.nFatent
    ensures Owned(g, [c], s) <==> ClustToSect(g, c) <= s < ClustToSect(g, c) + g.csize
  {
    if s >= g.database {
      DivLess(s - g.database, g.csize, c - 1);
      DivLess(s - g.database, g.csize, c - 2);
      assert (c - 1) * g.csize == (c - 2) * g.csize + g.csize;
    } else {
      MulMonotone(0, c - 2, g.csize);
    }
  }

  /** The answer of dir_next on entry `i` of a table of `cap` entries. */
  ghost predicate NextAnswer(i: nat, cap: nat, chained: bool, stretch: bool, fat: seq<nat>, res: FResult)
    requires |fat| >= 2
  {
    if i + 1 == 0x1_0000 then res == FrNoFile
    else if i + 1 < cap then res == FrOk
    else if !chained || !stretch then res == FrNoFile
    else GrowthAnswer(fat, res)
  }

  /** dir_next: to the following entry; at the end of a table that may grow, to the first entry of a new cluster. */
  method DirNext(dp: Dir, stretch: bool, ghost i: nat) returns (res: FResult)
    requires Usable(dp) && dp.AtEntry(i) && i < 0x1_0000
    modifies dp.fs`disk, dp.fs`logical, dp.fs`fat, dp.fs`wflag, dp.fs`winsect, dp.fs`lastClust, dp.fs`freeClust
    modifies dp.fs`fsiDirty, dp.fs.win
    modifies dp`index, dp`clust, dp`sect, dp`dir, dp`chain
    ensures Usable(dp)
    ensures NextAnswer(i, Capacity(dp.fs.geo, old(dp.chain)), old(dp.chain) != [], stretch, old(dp.fs.fat), res)
    ensures res == FrOk ==> dp.AtEntry(i + 1)
    ensures if res == FrOk && i + 1 >= Capacity(dp.fs.geo, old(dp.chain))
            then
              Stretched(dp.fs.geo, old(dp.fs.fat), old(dp.fs.logical), old(dp.chain),
                        dp.fs.fat, dp.fs.logical, dp.chain)
            else
              && dp.chain == old(dp.chain) && dp.fs.fat == old(dp.fs.fat)
              && SameOutsideFats(dp.fs.geo, old(dp.fs.logical), dp.fs.logical)
    ensures old(FreeExact(dp.fs)) ==> FreeExact(dp.fs)
  {
    hide Fatfs.Valid, FatGeo, DataGeo, Placed, Capacity, TableAt, SameOutsideFats, Stretched, FreeCount, FreeExact;
    hide Unbroken;
    SameOutsideRefl(dp.fs.geo, dp.fs.logical);
    PlacedPositive(dp.fs.geo, |dp.fs.disk|, dp.fs.fat, dp.sclust, dp.chain, i, dp.index, dp.clust, dp.sect, dp.dir);
    IndexOf(dp, i);
    var n := dp.index + 1;
    if n % 0x1_0000 == 0 || dp.sect == 0 {
      return FrNoFile;
    }
    res := FrOk;
    if n % 16 == 0 {
      res := NextSector(dp, n, stretch);
      if res != FrOk {
        return;
      }
    } else {
      SectorsPositive(dp.fs.geo, |dp.fs.disk|);
      NextInSector(dp.fs.geo, dp.chain, n, dp.clust, dp.sect, dp.dir);
    }
    dp.index := n;
    dp.dir := n % 16 * 32;
  }

  lemma IndexOf(dp: Dir, i: nat)
    requires dp.AtEntry(i)
    ensures dp.index == i
  {
  }

  /** Its part that is for entries at the start of a sector. */
  method NextSector(dp: Dir, n: nat, stretch: bool) returns (res: FResult)
    requires Usable(dp) && n > 0 && n % 16 == 0 && n < 0x1_0000 && dp.AtEntry(n - 1)
    modifies dp.fs`disk, dp.fs`logical, dp.fs`fat, dp.fs`wflag, dp.fs`winsect, dp.fs`lastClust, dp.fs`freeClust
    modifies dp.fs`fsiDirty, dp.fs.win
    modifies dp`clust, dp`sect, dp`chain
    ensures Usable(dp)
    ensures NextAnswer(n - 1, Capacity(dp.fs.geo, old(dp.chain)), old(dp.chain) != [], stretch, old(dp.fs.fat), res)
    ensures res == FrOk ==> n < Capacity(dp.fs.geo, dp.chain) && Placed(dp.fs.geo, dp.chain, n, n, dp.clust, dp.sect, 0)
    ensures if res == FrOk && n >= Capacity(dp.fs.geo, old(dp.chain))
            then
              Stretched(dp.fs.geo, old(dp.fs.fat), old(dp.fs.logical), old(dp.chain),
                        dp.fs.fat, dp.fs.logical, dp.chain)
            else
              && dp.chain == old(dp.chain) && dp.fs.fat == old(dp.fs.fat)
              && SameOutsideFats(dp.fs.geo, old(dp.fs.logical), dp.fs.logical)
    ensures old(FreeExact(dp.fs)) ==> FreeExact(dp.fs)
  {
    hide Fatfs.Valid, FatGeo, DataGeo, Placed, Capacity, TableAt, SameOutsideFats, Stretched, FreeCount, FreeExact;
    hide Unbroken, IsChain;
    SameOutsideRefl(dp.fs.geo, dp.fs.logical);
    SectorsPositive(dp.fs.geo, |dp.fs.disk|);
    KindOfTable(dp, n - 1);
    var at, prev := dp.sect, dp.clust;
    dp.sect := dp.sect + 1;
    res := FrOk;
    if dp.clust == 0 {
      NextInStatic(dp.fs.geo, n, at, dp.dir);
      if n >= dp.fs.geo.nRootdir {
        return FrNoFile;
      }
    } else if n / 16 % dp.fs.geo.csize == 0 {
      res := NextCluster(dp, n, at, stretch);
    } else {
      NextInCluster(dp.fs.geo, dp.fs.fat, dp.chain, n, dp.clust, at, dp.dir);
    }
  }

  /** The current cluster tells a chained table from a static one. */
  lemma KindOfTable(dp: Dir, i: nat)
    requires Usable(dp) && dp.AtEntry(i) && dp.fs.geo.csize > 0
    ensures dp.clust == 0 <==> dp.chain == []
    ensures dp.chain == [] ==> Capacity(dp.fs.geo, dp.chain) == dp.fs.geo.nRootdir
    ensures dp.chain != [] ==> IsChain(dp.fs.fat, dp.chain)
    ensures dp.index == i
  {
    hide Fatfs.Valid, FatGeo, DataGeo, TableSector, IsChain;
    if dp.chain != [] {
      InCapacity(i, dp.fs.geo.csize, |dp.chain|);
      LinkInside(dp.fs.fat, dp.chain, i / 16 / dp.fs.geo.csize);
    }
  }

  /** Its part that is for entries at the start of a cluster. */
  method NextCluster(dp: Dir, n: nat, at: nat, stretch: bool) returns (res: FResult)
    requires Usable(dp) && 0 < n < 0x1_0000 && n % 16 == 0 && dp.fs.geo.csize > 0 && n / 16 % dp.fs.geo.csize == 0
    requires dp.chain != [] && IsChain(dp.fs.fat, dp.chain)
    requires n - 1 < Capacity(dp.fs.geo, dp.chain) && Placed(dp.fs.geo, dp.chain, n - 1, dp.index, dp.clust, at, dp.dir)
    modifies dp.fs`disk, dp.fs`logical, dp.fs`fat, dp.fs`wflag, dp.fs`winsect, dp.fs`lastClust, dp.fs`freeClust
    modifies dp.fs`fsiDirty, dp.fs.win
    modifies dp`clust, dp`sect, dp`chain
    ensures Usable(dp)
    ensures NextAnswer(n - 1, Capacity(dp.fs.geo, old(dp.chain)), true, stretch, old(dp.fs.fat), res)
    ensures res == FrOk ==> n < Capacity(dp.fs.geo, dp.chain) && Placed(dp.fs.geo, dp.chain, n, n, dp.clust, dp.sect, 0)
    ensures if res == FrOk && n >= Capacity(dp.fs.geo, old(dp.chain))
            then
              Stretched(dp.fs.geo, old(dp.fs.fat), old(dp.fs.logical), old(dp.chain),
                        dp.fs.fat, dp.fs.logical, dp.chain)
            else
              && dp.chain == old(dp.chain) && dp.fs.fat == old(dp.fs.fat)
              && SameOutsideFats(dp.fs.geo, old(dp.fs.logical), dp.fs.logical)
    ensures old(FreeExact(dp.fs)) ==> FreeExact(dp.fs)
  {
    hide Fatfs.Valid, FatGeo, DataGeo, Capacity, TableAt, SameOutsideFats, Stretched, FreeCount, FreeExact, Unbroken;
    hide IsChain, ClustToSect, ClusterSector;
    SameOutsideRefl(dp.fs.geo, dp.fs.logical);
    ghost var q := AtClusterEnd(dp.fs.geo, dp.fs.fat, dp.chain, n, dp.clust, at, dp.dir);
    hide Placed;
    LinkInside(dp.fs.fat, dp.chain, q);
    var clst := GetFat(dp.fs, dp.clust);
    if clst <= 1 {
      return FrIntErr;
    }
    if clst >= dp.fs.geo.nFatent {
      if !stretch {
        return FrNoFile;
      }
      res, clst := StretchTable(dp);
      if res != FrOk {
        return;
      }
    }
    TableOfChain(dp);
    PlacedFirst(dp.fs.geo, dp.fs.fat, dp.chain, n, q + 1);
    dp.clust := clst;
    dp.sect := ClustToSect(dp.fs.geo, clst);
    FirstSectorOf(dp.fs.geo, dp.fs.fat, dp.chain, q + 1);
    res := FrOk;
  }

  lemma TableOfChain(dp: Dir)
    requires Usable(dp) && dp.chain != []
    ensures IsChain(dp.fs.fat, dp.chain) && |dp.fs.fat| == dp.fs.geo.nFatent
  {
  }

  lemma FirstSectorOf(g: Geo, fat: seq<nat>, ch: seq<nat>, q: nat)
    requires q < |ch| && IsChain(fat, ch) && |fat| == g.nFatent
    ensures ch[q] >= 2 && ClustToSect(g, ch[q]) == ClusterSector(g, ch[q])
  {
    LinkInside(fat, ch, q);
  }

  /** The way there does not matter: `i` steps from the first entry lead where dir_sdi leads at once. */
  method StepTo(dp: Dir, i: nat) returns (res: FResult)
    requires Usable(dp) && i < 0x1_0000
    modifies dp.fs`disk, dp.fs`logical, dp.fs`fat, dp.fs`wflag, dp.fs`winsect, dp.fs`lastClust, dp.fs`freeClust
    modifies dp.fs`fsiDirty, dp.fs.win
    modifies dp`index, dp`clust, dp`sect, dp`dir, dp`chain
    ensures Usable(dp) && dp.chain == old(dp.chain) && dp.fs.fat == old(dp.fs.fat)
    ensures res == if i < Capacity(dp.fs.geo, dp.chain) then FrOk else if Capacity(dp.fs.geo, dp.chain) == 0
            then FrIntErr else FrNoFile
    ensures res == FrOk ==> dp.AtEntry(i)
  {
    hide Fatfs.Valid, FatGeo, DataGeo, Placed, Capacity, Unbroken, Stretched, SameOutsideFats, FreeCount, Known;
    res := DirSdi(dp, 0);
    var j: nat := 0;
    while j < i && res == FrOk
      invariant Usable(dp) && dp.chain == old(dp.chain) && dp.fs.fat == old(dp.fs.fat) && j <= i
      invariant res == FrOk ==> dp.AtEntry(j)
      invariant res != FrOk ==> res == if Capacity(dp.fs.geo, dp.chain) == 0 then FrIntErr else FrNoFile
      invariant res != FrOk ==> i >= Capacity(dp.fs.geo, dp.chain)
      decreases i - j, res == FrOk
    {
      res := DirNext(dp, false, j);
      if res == FrOk {
        j := j + 1;
      }
    }
  }

  lemma OnePlace(g: Geo, ch: seq<nat>, i: nat, index: nat, clust: nat, sect: nat, dir: nat,
                 index': nat, clust': nat, sect': nat, dir': nat)
    requires Placed(g, ch, i, index, clust, sect, dir) && Placed(g, ch, i, index', clust', sect', dir')
    ensures index == index' && clust == clust' && sect == sect' && dir == dir'
  {
    hide TableSector;
  }

  /** Both ways taken: they reach an entry or fail together, and end with the same members. */
  method StepAndJump(dp: Dir, i: nat) returns (stepped: FResult, jumped: FResult, same: bool)
    requires Usable(dp) && i < 0x1_0000
    modifies dp.fs`disk, dp.fs`logical, dp.fs`fat, dp.fs`wflag, dp.fs`winsect, dp.fs`lastClust, dp.fs`freeClust
    modifies dp.fs`fsiDirty, dp.fs.win, dp`index, dp`clust, dp`sect, dp`dir, dp`chain
    ensures dp.chain == old(dp.chain) && (stepped == FrOk <==> jumped == FrOk)
    ensures jumped == (if i < Capacity(dp.fs.geo, dp.chain) then FrOk else FrIntErr)
            && (jumped == FrOk ==> same && dp.AtEntry(i))
  {
    hide Fatfs.Valid, FatGeo, DataGeo, Placed, Capacity, Known;
    stepped := StepTo(dp, i);
    var index, clust, sect, dir := dp.index, dp.clust, dp.sect, dp.dir;
    jumped := DirSdi(dp, i);
    same := dp.index == index && dp.clust == clust && dp.sect == sect && dp.dir == dir;
    if jumped == FrOk {
      OnePlace(dp.fs.geo, dp.chain, i, index, clust, sect, dir, dp.index, dp.clust, dp.sect, dp.dir);
    }
  }
}
