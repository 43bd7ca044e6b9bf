/** Clusters and sectors of the data area, and the bytes a cluster chain holds. */
module DataArea {
  import opened Bytes
  import opened Geometry
  import opened Chains

  // ----- arithmetic of sectors and clusters -----

  lemma MulMonotone(a: nat, b: nat, c: nat)
    requires a <= b
    ensures a * c <= b * c
  {
  }

  lemma MulNext(a: nat, c: nat)
    ensures (a + 1) * c == a * c + c
  {
  }

  lemma DivLess(k: nat, c: nat, n: nat)
    requires c > 0
    ensures k / c < n <==> k < n * c
  {
    if k / c < n {
      MulMonotone(k / c + 1, n, c);
    } else {
      MulMonotone(n, k / c, c);
    }
  }

  lemma DivUnique(k: nat, c: nat, q: nat, r: nat)
    requires r < c && k == q * c + r
    ensures k / c == q && k % c == r
  {
    DivLess(k, c, q + 1);
    DivLess(k, c, q);
  }

  /** One sector back: into the previous cluster exactly at a cluster boundary. */
  lemma SectorBefore(k: nat, c: nat)
    requires k > 0 && c > 0
    ensures (k - 1) / c == if k % c == 0 then k / c - 1 else k / c
  {
    if k % c == 0 {
      assert k / c > 0;
      DivUnique(k - 1, c, k / c - 1, c - 1);
    } else {
      DivUnique(k - 1, c, k / c, k % c - 1);
    }
  }

  /** A few sectors on within the same cluster. */
  lemma SectorAfter(k: nat, c: nat, j: nat)
    requires c > 0 && k % c + j < c
    ensures (k + j) / c == k / c && (k + j) % c == k % c + j
  {
    DivUnique(k + j, c, k / c, k % c + j);
  }

  // ----- sectors -----

  /** First sector of cluster `c`. */
  function ClusterSector(g: Geo, c: nat): nat
    requires c >= 2
  {
    (c - 2) * g.csize + g.database
  }

  /** clust2sect: 0 for a cluster number out of the table. */
  function ClustToSect(g: Geo, c: nat): nat {
    if c < 2 || c >= g.nFatent then 0 else ClusterSector(g, c)
  }

  /** Cluster whose sector `s` is. */
  function OwnerOf(g: Geo, s: nat): nat
    requires s >= g.database && g.csize > 0
  {
    (s - g.database) / g.csize + 2
  }

  /** Sector `k` of the data on chain `ch`. */
  function SectorOf(g: Geo, ch: seq<nat>, k: nat): nat
    requires g.csize > 0 && k / g.csize < |ch| && ch[k / g.csize] >= 2
  {
    ClusterSector(g, ch[k / g.csize]) + k % g.csize
  }

  /** Cluster 2 is the first of the data area, and each cluster begins where the one before ends. */
  lemma ClusterSteps(g: Geo, c: nat)
    requires 2 <= c < g.nFatent
    ensures ClustToSect(g, 2) == g.database
    ensures c + 1 < g.nFatent ==> ClustToSect(g, c + 1) == ClustToSect(g, c) + g.csize
  {
    assert (c + 1 - 2) * g.csize == (c - 2) * g.csize + g.csize;
  }

  /** The sectors of a chain are those of its clusters in order. */
  lemma SectorSteps(g: Geo, ch: seq<nat>, k: nat)
    requires g.csize > 0 && k / g.csize < |ch| && (k + 1) / g.csize < |ch|
    requires ch[k / g.csize] >= 2 && ch[(k + 1) / g.csize] >= 2
    ensures if (k + 1) % g.csize != 0 then SectorOf(g, ch, k + 1) == SectorOf(g, ch, k) + 1
            else (k + 1) / g.csize == k / g.csize + 1
                 && SectorOf(g, ch, k + 1) == ClusterSector(g, ch[(k + 1) / g.csize])
  {
    hide ClusterSector;
    var q, r := k / g.csize, k % g.csize;
    assert k == q * g.csize + r;
    if r + 1 < g.csize {
      DivUnique(k + 1, g.csize, q, r + 1);
    } else {
      assert (q + 1) * g.csize == q * g.csize + g.csize;
      DivUnique(k + 1, g.csize, q + 1, 0);
    }
  }

  /** Every sector of a cluster in the table lies in the data area, behind the FAT copies and on the drive,
      and tells its cluster. */
  lemma ClusterSectorRange(g: Geo, total: nat, c: nat, j: nat)
    requires FatGeo(g, total) && DataGeo(g, total) && 2 <= c < g.nFatent && j < g.csize
    ensures FatEnd(g) <= g.database <= ClusterSector(g, c) + j < total
    ensures OwnerOf(g, ClusterSector(g, c) + j) == c
    ensures (ClusterSector(g, c) + j - g.database) % g.csize == j
  {
    var m := (c - 2) * g.csize;
    var s := ClusterSector(g, c) + j;
    assert s == g.database + m + j && FatEnd(g) <= g.database;
    assert g.database + (g.nFatent - 2) * g.csize <= total;
    assert OwnerOf(g, s) == (m + j) / g.csize + 2;
    hide *;
    MulMonotone(c - 2 + 1, g.nFatent - 2, g.csize);
    MulNext(c - 2, g.csize);
    DivUnique(m + j, g.csize, c - 2, j);
  }

  /** The sectors a valid chain covers. */
  ghost predicate ChainOn(g: Geo, ch: seq<nat>) {
    && g.csize > 0
    && (forall i | 0 <= i < |ch| :: 2 <= ch[i] < g.nFatent)
    && (forall i, j | 0 <= i < j < |ch| :: ch[i] != ch[j])
  }

  lemma SectorOfRange(g: Geo, total: nat, ch: seq<nat>, k: nat)
    requires FatGeo(g, total) && DataGeo(g, total) && ChainOn(g, ch) && k / g.csize < |ch|
    ensures FatEnd(g) <= g.database <= SectorOf(g, ch, k) < total
    ensures OwnerOf(g, SectorOf(g, ch, k)) == ch[k / g.csize]
    ensures (SectorOf(g, ch, k) - g.database) % g.csize == k % g.csize
  {
    hide FatGeo, DataGeo, ClusterSector, OwnerOf;
    ClusterSectorRange(g, total, ch[k / g.csize], k % g.csize);
  }

  lemma OnceOnChain(g: Geo, ch: seq<nat>, i: nat, j: nat)
    requires ChainOn(g, ch) && i < |ch| && j < |ch| && ch[i] == ch[j]
    ensures i == j
  {
  }

  /** Different data sectors of a chain are different sectors of the drive. */
  lemma SectorOfInjective(g: Geo, total: nat, ch: seq<nat>, k: nat, k': nat)
    requires FatGeo(g, total) && DataGeo(g, total) && ChainOn(g, ch)
    requires k / g.csize < |ch| && k' / g.csize < |ch| && SectorOf(g, ch, k) == SectorOf(g, ch, k')
    ensures k == k'
  {
    assert g.csize > 0;
    hide *;
    SectorOfRange(g, total, ch, k);
    SectorOfRange(g, total, ch, k');
    OnceOnChain(g, ch, k / g.csize, k' / g.csize);
    SameQuotient(k, k', g.csize);
  }

  lemma SameQuotient(k: nat, k': nat, c: nat)
    requires c > 0 && k / c == k' / c && k % c == k' % c
    ensures k == k'
  {
    assert k == k / c * c + k % c;
    assert k' == k' / c * c + k' % c;
  }

  /** Sector `s` belongs to a cluster that is free or on chain `ch`. */
  ghost predicate Avail(g: Geo, fat: seq<nat>, ch: seq<nat>, s: nat) {
    && s >= g.database && g.csize > 0
    && InTable(fat, OwnerOf(g, s))
    && (fat[OwnerOf(g, s)] == 0 || OwnerOf(g, s) in ch)
  }

  /** Sector `s` belongs to a cluster on chain `ch`. */
  ghost predicate Owned(g: Geo, ch: seq<nat>, s: nat) {
    s >= g.database && g.csize > 0 && OwnerOf(g, s) in ch
  }

  /** Sector `s` is sector `k` of the data on chain `ch`. */
  ghost predicate SectorIs(g: Geo, ch: seq<nat>, k: nat, s: nat)
    ensures SectorIs(g, ch, k, s) ==> g.csize > 0
  {
    g.csize > 0 && k / g.csize < |ch| && ch[k / g.csize] >= 2 && s == SectorOf(g, ch, k)
  }

  /** Cluster `c` holds byte `i` of the data on chain `ch`. */
  ghost predicate ClusterIs(g: Geo, ch: seq<nat>, i: nat, c: nat)
    ensures ClusterIs(g, ch, i, c) ==> g.csize > 0
  {
    g.csize > 0 && i / 512 / g.csize < |ch| && c == ch[i / 512 / g.csize]
  }

  /** A cursor at byte `at` of `len`: its cluster is that of the byte before it, and inside a sector its
      buffer stands for that sector. */
  ghost predicate CursorAt(g: Geo, ch: seq<nat>, at: nat, clust: nat, dsect: nat, len: nat)
    ensures CursorAt(g, ch, at, clust, dsect, len) ==> at <= len < 0x1_0000_0000
    ensures CursorAt(g, ch, at, clust, dsect, len) && at % 512 != 0 ==> SectorIs(g, ch, at / 512, dsect)
  {
    && at <= len < 0x1_0000_0000
    && g.csize > 0
    && (at > 0 ==> ClusterIs(g, ch, at - 1, clust))
    && (at % 512 != 0 ==> SectorIs(g, ch, at / 512, dsect))
  }

  /** Off a cluster boundary the cursor's cluster is that of the byte it stands on. */
  lemma CursorInside(g: Geo, ch: seq<nat>, at: nat, clust: nat, dsect: nat, len: nat)
    requires CursorAt(g, ch, at, clust, dsect, len) && at > 0
    requires at % 512 != 0 || at / 512 % g.csize != 0
    ensures ClusterIs(g, ch, at, clust)
  {
    if at % 512 == 0 {
      assert (at - 1) / 512 == at / 512 - 1;
      SectorBefore(at / 512, g.csize);
    } else {
      assert (at - 1) / 512 == at / 512;
    }
  }

  /** On a cluster boundary it is the one before. */
  lemma CursorBoundary(g: Geo, ch: seq<nat>, at: nat, clust: nat, dsect: nat, len: nat)
    requires CursorAt(g, ch, at, clust, dsect, len) && at > 0
    requires at % 512 == 0 && at / 512 % g.csize == 0
    ensures 0 < at / 512 / g.csize <= |ch| && clust == ch[at / 512 / g.csize - 1]
  {
    assert (at - 1) / 512 == at / 512 - 1;
    SectorBefore(at / 512, g.csize);
  }

  /** Moving on within a cluster. */
  lemma CursorMoves(g: Geo, ch: seq<nat>, at: nat, n: nat, clust: nat, dsect: nat, len: nat)
    requires ClusterIs(g, ch, at, clust) && n > 0 && at + n <= len < 0x1_0000_0000
    requires at / 512 % g.csize * 512 + at % 512 + n <= g.csize * 512
    requires at % 512 + n < 512 ==> SectorIs(g, ch, at / 512, dsect)
    requires at % 512 + n > 512 ==> (at + n) % 512 == 0
    ensures CursorAt(g, ch, at + n, clust, dsect, len)
  {
    var j := (at % 512 + n - 1) / 512;
    assert (at + n - 1) / 512 == at / 512 + j;
    SectorAfter(at / 512, g.csize, j);
    if (at + n) % 512 != 0 {
      assert (at + n) / 512 == at / 512;
    }
  }

  /** Byte `at` starts a sector: number `sect` of the drive, `csect` of cluster `clust`. */
  ghost predicate AtSector(g: Geo, ch: seq<nat>, at: nat, clust: nat, sect: nat, csect: nat)
    ensures AtSector(g, ch, at, clust, sect, csect) ==> at % 512 == 0 && csect < g.csize
  {
    && at % 512 == 0 && ClusterIs(g, ch, at, clust) && SectorIs(g, ch, at / 512, sect)
    && csect == at / 512 % g.csize
  }

  /** Moving on by whole sectors of the same cluster. */
  lemma CursorMovesSectors(g: Geo, ch: seq<nat>, at: nat, clust: nat, sect: nat, csect: nat, cc: nat, dsect: nat,
                           len: nat)
    requires AtSector(g, ch, at, clust, sect, csect) && cc > 0 && csect + cc <= g.csize
    requires at + cc * 512 <= len < 0x1_0000_0000
    ensures CursorAt(g, ch, at + cc * 512, clust, dsect, len)
  {
    hide ClusterIs, SectorIs;
    CursorMoves(g, ch, at, cc * 512, clust, dsect, len);
  }

  /** Moving on within the sector the buffer stands for. */
  lemma CursorMovesInside(g: Geo, ch: seq<nat>, at: nat, n: nat, clust: nat, dsect: nat, len: nat)
    requires ClusterIs(g, ch, at, clust) && SectorIs(g, ch, at / 512, dsect)
    requires n > 0 && at % 512 + n <= 512 && at + n <= len < 0x1_0000_0000
    ensures CursorAt(g, ch, at + n, clust, dsect, len)
  {
    hide ClusterIs, SectorIs;
    MulMonotone(at / 512 % g.csize + 1, g.csize, 512);
    CursorMoves(g, ch, at, n, clust, dsect, len);
  }

  /** Within a cluster the sectors of the data are consecutive. */
  lemma SectorsInRow(g: Geo, ch: seq<nat>, k: nat, s: nat, j: nat)
    requires SectorIs(g, ch, k, s) && k % g.csize + j < g.csize
    ensures SectorIs(g, ch, k + j, s + j)
  {
    hide ClusterSector;
    SectorAfter(k, g.csize, j);
  }

  // ----- the bytes of a chain -----

  /** Byte `i` of the data on chain `ch` of drive `d` is `b`. */
  ghost predicate BytePlaced(g: Geo, ch: seq<nat>, d: seq<Sector>, i: nat, b: byte) {
    && g.csize > 0 && i / 512 / g.csize < |ch| && ch[i / 512 / g.csize] >= 2
    && SectorOf(g, ch, i / 512) < |d|
    && d[SectorOf(g, ch, i / 512)][i % 512] == b
  }

  /** The data on chain `ch` of drive `d` starts with the bytes `c`. */
  ghost predicate Holds(g: Geo, ch: seq<nat>, d: seq<Sector>, c: seq<byte>) {
    forall i: nat | i < |c| :: BytePlaced(g, ch, d, i, c[i])
  }

  /** `c` with the bytes `p` written over it from offset `at` on. */
  function Patched(c: seq<byte>, at: nat, p: seq<byte>): (r: seq<byte>)
    requires at <= |c|
    ensures |r| == if at + |p| > |c| then at + |p| else |c|
    ensures forall i | 0 <= i < |r| :: r[i] == if at <= i < at + |p| then p[i - at] else c[i]
  {
    c[..at] + p + if at + |p| <= |c| then c[at + |p|..] else []
  }

  lemma PatchedNothing(c: seq<byte>, at: nat)
    requires at <= |c|
    ensures Patched(c, at, []) == c
  {
  }

  lemma PatchedTwice(c: seq<byte>, at: nat, p: seq<byte>, q: seq<byte>)
    requires at <= |c|
    ensures Patched(Patched(c, at, p), at + |p|, q) == Patched(c, at, p + q)
  {
  }

  // ----- what file operations leave alone -----

  /** Outside the FAT copies, `d'` differs from `d` in sectors of clusters on `ch` only. */
  ghost predicate Elsewhere(g: Geo, ch: seq<nat>, d: seq<Sector>, d': seq<Sector>) {
    |d'| == |d| && forall s: nat | s < |d| && OutsideFats(g, s) && !Owned(g, ch, s) :: d'[s] == d[s]
  }

  lemma SameOutsideElsewhere(g: Geo, ch: seq<nat>, d: seq<Sector>, d': seq<Sector>)
    requires SameOutsideFats(g, d, d')
    ensures Elsewhere(g, ch, d, d')
  {
  }

  lemma ElsewhereTrans(g: Geo, ch: seq<nat>, ch': seq<nat>, d: seq<Sector>, d': seq<Sector>, d'': seq<Sector>)
    requires Elsewhere(g, ch, d, d') && Elsewhere(g, ch', d', d'') && forall c | c in ch :: c in ch'
    ensures Elsewhere(g, ch', d, d'')
  {
  }

  /** Number of clusters that the first `n` bytes of a file need. */
  function ClustersFor(g: Geo, n: nat): nat
    requires g.csize > 0
  {
    if n == 0 then 0 else (n - 1) / 512 / g.csize + 1
  }

  /** A chain `ch` became `ch'` for the first `n` bytes of its file: as long as they need if it got longer. */
  ghost predicate LongEnough(g: Geo, ch: seq<nat>, ch': seq<nat>, n: nat) {
    |ch'| == |ch| || (g.csize > 0 && |ch'| <= ClustersFor(g, n))
  }

  lemma LongEnoughRefl(g: Geo, ch: seq<nat>, n: nat)
    ensures LongEnough(g, ch, ch, n)
  {
  }

  lemma LongEnoughTrans(g: Geo, ch: seq<nat>, ch': seq<nat>, ch'': seq<nat>, n: nat, n': nat)
    requires LongEnough(g, ch, ch', n) && LongEnough(g, ch', ch'', n') && n <= n' && g.csize > 0
    ensures LongEnough(g, ch, ch'', n')
  {
    ClustersForMore(g, n, n');
  }

  lemma ClustersForMore(g: Geo, n: nat, n': nat)
    requires n <= n' && g.csize > 0
    ensures ClustersFor(g, n) <= ClustersFor(g, n')
  {
    if 0 < n {
      var a, b := (n - 1) / 512, (n' - 1) / 512;
      assert a <= b;
      DivLess(a, g.csize, b / g.csize + 1);
      DivLess(b, g.csize, b / g.csize + 1);
    }
  }

  /** From `fat` to `fat'` the chain `ch` grew to `ch'` by clusters that were free; no other entry changed. A chain that
      did grow has a new end mark. */
  ghost predicate Grown(fat: seq<nat>, fat': seq<nat>, ch: seq<nat>, ch': seq<nat>)
    ensures Grown(fat, fat', ch, ch') ==> ch <= ch'
  {
    && |fat'| == |fat| && ch <= ch'
    && (forall i | |ch| <= i < |ch'| :: InTable(fat, ch'[i]) && fat[ch'[i]] == 0)
    && (forall c: nat | c < |fat| && c !in ch' :: fat'[c] == fat[c])
    && if ch' == ch then fat' == fat else ch'[|ch'| - 1] < |fat'| && IsEndMark(fat'[ch'[|ch'| - 1]])
  }

  /** A grown chain adds no entry holding 1. */
  lemma GrownUnbroken(fat: seq<nat>, fat': seq<nat>, ch: seq<nat>, ch': seq<nat>)
    requires Grown(fat, fat', ch, ch') && (ch' == [] || IsChain(fat', ch'))
    ensures Unbroken(fat) ==> Unbroken(fat')
  {
    if Unbroken(fat) {
      forall c: nat | InTable(fat', c) ensures fat'[c] != 1 {
        if c in ch' {
          var i :| 0 <= i < |ch'| && ch'[i] == c;
          if i + 1 < |ch'| {
            assert InTable(fat', ch'[i + 1]);
          }
        }
      }
    }
  }

  lemma GrownTrans(fat: seq<nat>, fat': seq<nat>, fat'': seq<nat>, ch: seq<nat>, ch': seq<nat>, ch'': seq<nat>)
    requires Grown(fat, fat', ch, ch') && Grown(fat', fat'', ch', ch'')
    requires ch' == [] || IsChain(fat', ch')
    ensures Grown(fat, fat'', ch, ch'')
  {
    forall i | |ch| <= i < |ch''| ensures InTable(fat, ch''[i]) && fat[ch''[i]] == 0 {
      if i < |ch'| {
        assert ch''[i] == ch'[i];
      } else {
        if ch' != [] {
          NotOnChain(fat', ch', ch''[i]);
        }
        assert fat'[ch''[i]] == fat[ch''[i]];
      }
    }
    forall c: nat | c < |fat| && c !in ch'' ensures fat''[c] == fat[c] {
      assert c !in ch';
    }
  }

  /** A file whose chain grew leaves every other chain of the forest as it was. */
  lemma GrownForest(fat: seq<nat>, fat': seq<nat>, s: set<seq<nat>>, ch: seq<nat>, ch': seq<nat>)
    requires Forest(fat, s) && Grown(fat, fat', ch, ch')
    requires (ch == [] || ch in s) && (ch' == [] || IsChain(fat', ch'))
    ensures Forest(fat', if ch' == [] then s else s - {ch} + {ch'})
  {
    if ch' == [] {
      assert fat' == fat;
    } else {
      forall c | c in ch' ensures c in ch || (InTable(fat, c) && fat[c] == 0) {
        var i :| 0 <= i < |ch'| && ch'[i] == c;
        assert i < |ch| ==> ch[i] == c;
      }
      if ch == [] {
        JoinedForest(fat, fat', s, ch');
        assert !IsChain(fat, []);
        assert s - {ch} + {ch'} == s + {ch'};
      } else {
        ReplacedForest(fat, fat', s, ch, ch');
      }
    }
  }
}
