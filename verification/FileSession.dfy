/** Runs of operations on one open file: whatever the caches do, the file is a flat byte array with a cursor,
    and the other files of the volume do not notice. */
module FileSession {
  import opened Bytes
  import opened Geometry
  import opened Volume
  import opened Chains
  import opened ClusterAlloc
  import opened DataArea
  import opened LinkMap
  import AllocatorRuns
  import opened FileObject
  import opened FileRead
  import opened FileWrite
  import opened FileSeek
  import opened FileTruncate
  import opened FileSync
  import opened FileBuffer

  datatype FileOp =
    | ReadOp(n: nat)
    | WriteOp(data: seq<byte>)
    | SeekOp(ofs: nat)         // to the offset that would ask for a link map: in normal mode
    | LinkMapOp(size: nat)   // the application attaches a table of that size and asks for a link map
    | DetachOp               // the application goes back to normal seek
    | TruncateOp             // it does so before it truncates the file
    | SyncOp(tm: dword)

  /** What an operation gives back: the bytes read, the number of bytes written, the size the table should have had. */
  datatype Answer = BytesRead(bytes: seq<byte>) | BytesWritten(count: nat) | TooSmall(need: nat) | Refused | Done

  /** The bytes that a link map covers. */
  datatype Link = NoMap | Covers(n: nat)

  /** A file without caches, clusters or sectors. `room`: the bytes its chain can hold; `free`: what the free clusters
      of the volume can hold; `runs`: the contiguous runs of its chain; `runsOn`: its end mark runs on; `widest`: the
      volume has as many FAT entries as an end mark says, which lets a new one run on; `written`: the drive does not
      have all of it; `dead`: it was aborted. */
  datatype Flat = Flat(bytes: seq<byte>, cursor: nat, room: nat, free: nat, runs: nat, runsOn: bool, widest: bool,
    link: Link, written: bool, dead: bool)

  ghost function FlatOf(fp: Fil): Flat
    requires |fp.fs.fat| >= 2
    reads fp`contents, fp`fptr, fp`chain, fp`cltbl, fp`mapOf, fp`written, fp`err, fp.fs`fat, fp.fs`geo
  {
    Flat(fp.contents, fp.fptr, ClusterStart(fp.fs.geo, |fp.chain|), ClusterStart(fp.fs.geo, FreeCount(fp.fs.fat)),
         Runs(fp.chain), MarkRunsOn(fp.fs.fat, fp.chain), IsEndMark(|fp.fs.fat|),
         if fp.cltbl == null then NoMap else Covers(ClusterStart(fp.fs.geo, |fp.mapOf|)), fp.written, fp.err != FrOk)
  }

  /** The bytes of a cluster. */
  function Unit(fp: Fil): (u: nat)
    reads fp.fs`geo
    ensures fp.fs.geo.csize > 0 ==> u > 0
  {
    ClusterStart(fp.fs.geo, 1)
  }

  function Max(a: nat, b: nat): nat {
    if a < b then b else a
  }

  /** `n` bytes rounded up to whole clusters. */
  function RoundedUp(n: nat, unit: nat): nat
    requires unit > 0
  {
    if n == 0 then 0 else ((n - 1) / unit + 1) * unit
  }

  /** The bytes that a write can reach: all room of the file and of the volume; with a link map the room of the file,
      or one cluster when it has none. */
  function Reach(x: Flat, unit: nat): nat {
    if x.link.NoMap? then x.room + x.free else if x.room > 0 then x.room else Min(unit, x.free)
  }

  /** The file's room is `room` now, taken from or given back to the volume. Its runs are the same when the room is;
      each cluster more is one run more at most, fewer clusters are no more runs. */
  predicate Resized(x: Flat, y: Flat, room: nat, unit: nat) {
    && y.room == room && y.free + y.room == x.free + x.room && y.widest == x.widest
    && if room == x.room then y.runs == x.runs && y.runsOn == x.runsOn
       else
         && (y.runsOn ==> y.widest)
         && if room > x.room then x.runs <= y.runs && (y.runs - x.runs) * unit <= room - x.room else y.runs <= x.runs
  }

  /** A seek to the offset that would ask for a link map is made in normal mode. */
  function SeekFrom(x: Flat, ofs: nat): Flat {
    if ofs == CREATE_LINKMAP then x.(link := NoMap) else x
  }

  /** One operation on the flat file; `unit` is the size of a cluster. */
  ghost predicate FlatStep(x: Flat, op: FileOp, a: Answer, y: Flat, unit: nat)
    requires unit > 0
  {
    match op
    case ReadOp(n) =>
      if x.dead then a == Refused && y == x
      else
        && x.cursor <= |x.bytes| && y == x.(cursor := Min(x.cursor + n, |x.bytes|))
        && a == BytesRead(x.bytes[x.cursor..y.cursor])
    case WriteOp(data) =>
      if x.dead then a == Refused && y == x
      else
        && a.BytesWritten? && x.cursor <= |x.bytes| && x.cursor <= Reach(x, unit)
        && a.count == (if x.cursor + |data| >= 0x1_0000_0000 then 0 else Min(|data|, Reach(x, unit) - x.cursor))
        && y.bytes == Patched(x.bytes, x.cursor, data[..a.count]) && y.cursor == x.cursor + a.count
        && Resized(x, y, Max(x.room, RoundedUp(y.cursor, unit)), unit)
        && y.link == x.link && y.written && !y.dead
    case SeekOp(ofs) =>
      var x := SeekFrom(x, ofs);
      if x.dead then a == Refused && y == x
      else if x.link.NoMap? then
        && a == Done && y.cursor == Min(ofs, x.room + x.free)
        && x.bytes <= y.bytes && |y.bytes| == Max(y.cursor, |x.bytes|)
        && Resized(x, y, Max(x.room, RoundedUp(y.cursor, unit)), unit)
        && y.link == NoMap && y.written == (x.written || |y.bytes| > |x.bytes|) && !y.dead
      else
        var at := Min(ofs, |x.bytes|);
        if at <= x.link.n then a == Done && y == x.(cursor := at)
        else a == Refused && y == x.(cursor := at, dead := true)
    case LinkMapOp(size) =>
      if x.dead then a == Refused && y == x.(link := NoMap)
      else if x.runsOn then a == Refused && y == x.(link := NoMap, dead := true)
      else if 2 + 2 * x.runs <= size then a == Done && y == x.(link := Covers(x.room))
      else a == TooSmall(2 + 2 * x.runs) && y == x.(link := NoMap)
    case DetachOp =>
      a == Done && y == x.(link := NoMap)
    case TruncateOp =>
      if x.dead then a == Refused && y == x.(link := NoMap)
      else
        && a == Done && x.cursor <= |x.bytes| && y.bytes == x.bytes[..x.cursor] && y.cursor == x.cursor
        && Resized(x, y, if x.cursor < |x.bytes| then RoundedUp(x.cursor, unit) else x.room, unit)
        && y.link == NoMap && y.written == (x.written || x.cursor < |x.bytes|) && !y.dead
    case SyncOp(_) =>
      a == Done && y == x.(written := false)
  }

  /** The chains of the volume: those of other files and directories, and that of this file if it has one. */
  ghost function WithChain(others: set<seq<nat>>, ch: seq<nat>): set<seq<nat>> {
    if ch == [] then others else others + {ch}
  }

  /** The sectors of every other chain keep their bytes, but for the entry of this file in its directory. */
  ghost predicate OthersKept(g: Geo, others: set<seq<nat>>, l: seq<Sector>, l': seq<Sector>, dirSect: nat, o: nat)
    ensures OthersKept(g, others, l, l', dirSect, o) ==> |l'| == |l|
  {
    && |l'| == |l|
    && forall x, s: nat | x in others && s < |l| && Owned(g, x, s) ::
         if s == dirSect then forall i | 0 <= i < 512 && !(o + 11 <= i < o + 32) :: l'[s][i] == l[s][i]
           else l'[s] == l[s]
  }

  lemma OthersKeptRefl(g: Geo, others: set<seq<nat>>, l: seq<Sector>, dirSect: nat, o: nat)
    ensures OthersKept(g, others, l, l, dirSect, o)
  {
  }

  lemma OthersKeptTrans(g: Geo, others: set<seq<nat>>, l: seq<Sector>, l': seq<Sector>, l'': seq<Sector>,
                        dirSect: nat, o: nat)
    requires OthersKept(g, others, l, l', dirSect, o) && OthersKept(g, others, l', l'', dirSect, o)
    ensures OthersKept(g, others, l, l'', dirSect, o)
  {
    hide Owned;
  }

  /** Where the directory entry of the file may be. */
  ghost predicate EntryPlace(g: Geo, total: nat, fat: seq<nat>, ch: seq<nat>, dirSect: nat, o: nat) {
    && dirSect < total && OutsideFats(g, dirSect) && o + 32 <= 512
    && !Avail(g, fat, ch, dirSect) && dirSect != g.volbase + 1
    && (g.fsType == Fat32 ==> g.volbase + 1 < g.fatbase)
  }

  /** A file open for reading and writing on a volume whose other chains are `others`. */
  ghost predicate Ready(fp: Fil, others: set<seq<nat>>)
    reads fp, fp.cltbl, fp.buf, fp.fs, fp.fs.win
    ensures Ready(fp, others) ==>
              fp.Sound() && |fp.fs.fat| >= 3 && fp.dirOffset + 32 <= 512
              && fp.dirSect < |fp.fs.disk|
    ensures Ready(fp, others) ==> fp.fs.geo.csize > 0
  {
    && fp.Sound() && fp.canRead && fp.canWrite && MapFits(fp)
    && OnVolume(fp.fs.geo, |fp.fs.disk|, fp.fs.fat, others, fp.chain, fp.dirSect, fp.dirOffset)
  }

  /** A link map was made of the whole chain, but that an empty file may have got its first cluster since. */
  ghost predicate MapFits(fp: Fil)
    reads fp`cltbl, fp`mapOk, fp`mapOf, fp`chain
  {
    fp.cltbl != null ==> fp.mapOk && (fp.mapOf == fp.chain || (fp.mapOf == [] && |fp.chain| == 1))
  }

  /** The chain of a file among the others of its volume, and its directory entry apart from both. */
  ghost predicate OnVolume(g: Geo, total: nat, fat: seq<nat>, others: set<seq<nat>>, ch: seq<nat>, dirSect: nat, o: nat)
    ensures OnVolume(g, total, fat, others, ch, dirSect, o) ==> o + 32 <= 512 && dirSect < total
  {
    && ch !in others && Forest(fat, WithChain(others, ch))
    && EntryPlace(g, total, fat, ch, dirSect, o)
  }

  // ----- what a step does to the volume -----

  /** A sector of another chain is outside the FAT copies and not the file's. */
  lemma OtherSector(g: Geo, total: nat, fat: seq<nat>, others: set<seq<nat>>, ch: seq<nat>, x: seq<nat>, s: nat)
    requires FatGeo(g, total) && DataGeo(g, total) && Forest(fat, WithChain(others, ch)) && ch !in others
    requires x in others && Owned(g, x, s)
    ensures OutsideFats(g, s) && !Owned(g, ch, s) && s != g.volbase + 1
  {
    hide IsChain;
    assert x in WithChain(others, ch);
    if ch != [] {
      assert ch in WithChain(others, ch);
      assert Apart(x, ch);
    }
  }

  lemma ElsewhereOthers(g: Geo, fat: seq<nat>, others: set<seq<nat>>, ch: seq<nat>, l: seq<Sector>, l': seq<Sector>,
                        dirSect: nat, o: nat)
    requires FatGeo(g, |l|) && DataGeo(g, |l|) && OnVolume(g, |l|, fat, others, ch, dirSect, o)
    requires Elsewhere(g, ch, l, l') || EntryOnly(g, ch, l, l', dirSect, o)
    ensures OthersKept(g, others, l, l', dirSect, o)
  {
    hide Owned, FatGeo, DataGeo, Forest, EntryPlace;
    forall x, s: nat | x in others && s < |l| && Owned(g, x, s) ensures OutsideFats(g, s) && !Owned(g, ch, s)
      && s != g.volbase + 1 {
      OtherSector(g, |l|, fat, others, ch, x, s);
    }
  }

  /** A chain that grew by free clusters is none of the others, and a file can own the same sectors as before. */
  lemma GrownVolume(g: Geo, total: nat, fat: seq<nat>, fat': seq<nat>, others: set<seq<nat>>, ch: seq<nat>,
                    ch': seq<nat>,
                    sclust: nat, sclust': nat, dirSect: nat, o: nat)
    requires OnVolume(g, total, fat, others, ch, dirSect, o) && Grown(fat, fat', ch, ch')
    requires ChainOk(fat, ch, sclust) && ChainOk(fat', ch', sclust')
    ensures OnVolume(g, total, fat', others, ch', dirSect, o)
  {
    GrownAvail(g, fat, fat', ch, ch', sclust');
    NotAnother(fat, fat', others, ch, ch');
    assert !IsChain(fat, []);
    hide IsChain, Avail, Apart, Grown;
    GrownForest(fat, fat', WithChain(others, ch), ch, ch');
    if ch' != [] {
      assert WithChain(others, ch) - {ch} + {ch'} == others + {ch'};
    }
  }

  lemma NotAnother(fat: seq<nat>, fat': seq<nat>, others: set<seq<nat>>, ch: seq<nat>, ch': seq<nat>)
    requires Forest(fat, WithChain(others, ch)) && ch !in others && Grown(fat, fat', ch, ch')
    ensures ch' !in others
  {
    if |ch'| > |ch| {
      forall x | x in others ensures x != ch' {
        assert x in WithChain(others, ch);
        var c := ch'[|ch|];
        NotOnChain(fat, x, c);
        assert c in ch';
      }
    }
  }

  lemma GrownAvail(g: Geo, fat: seq<nat>, fat': seq<nat>, ch: seq<nat>, ch': seq<nat>, sclust': nat)
    requires Grown(fat, fat', ch, ch') && ChainOk(fat', ch', sclust')
    ensures forall s: nat :: Avail(g, fat', ch', s) <==> Avail(g, fat, ch, s)
  {
    forall c: nat | InTable(fat, c) ensures (fat'[c] == 0 || c in ch') <==> (fat[c] == 0 || c in ch) {
      if c in ch' {
        var i :| 0 <= i < |ch'| && ch'[i] == c;
        assert i < |ch| ==> ch[i] == c;
      } else {
        assert forall j | 0 <= j < |ch| :: ch[j] == ch'[j];
      }
    }
  }

  lemma TruncatedVolume(g: Geo, total: nat, fat: seq<nat>, others: set<seq<nat>>, ch: seq<nat>, k: nat, sclust: nat,
                        end: nat,
                        dirSect: nat, o: nat)
    requires OnVolume(g, total, fat, others, ch, dirSect, o) && ChainOk(fat, ch, sclust) && k <= |ch|
             && end >= |fat| >= 2
    ensures OnVolume(g, total, Truncated(fat, ch, k, end), others, ch[..k], dirSect, o)
  {
    TruncatedFacts(g, fat, ch, sclust, k, end);
    hide IsChain, Avail, Apart, Freed;
    PrefixApart(fat, others, ch, k);
    var all := WithChain(others, ch);
    if ch == [] {
      assert Truncated(fat, ch, k, end) == fat;
    } else if k == 0 {
      RemovedForest(fat, all, ch);
      assert all - {ch} == others;
    } else if k == |ch| {
      assert ch[..k] == ch;
    } else {
      CutForest(fat, all, ch, k, end);
      assert all - {ch} + {ch[..k]} == others + {ch[..k]};
    }
  }

  lemma EndMarkBehind(g: Geo, total: nat)
    requires FatGeo(g, total)
    ensures EndMark(g.fsType) >= g.nFatent >= 3
  {
  }

  /** The first clusters of a chain are no other chain. */
  lemma PrefixApart(fat: seq<nat>, others: set<seq<nat>>, ch: seq<nat>, k: nat)
    requires Forest(fat, WithChain(others, ch)) && ch !in others && k <= |ch|
    ensures ch[..k] !in others
  {
    assert forall x | x in others :: IsChain(fat, x);
    if ch != [] {
      assert ch in WithChain(others, ch);
      forall x | x in others ensures ch[0] in ch && ch[0] !in x {
        assert x != ch && Apart(ch, x);
      }
      assert k > 0 ==> ch[..k][0] == ch[0];
    }
  }

  // ----- what the operations come to on the flat file -----

  /** Clusters free, on the chain and on the other chains are all there are. */
  lemma Conserved(g: Geo, total: nat, fat: seq<nat>, others: set<seq<nat>>, ch: seq<nat>, dirSect: nat, o: nat)
    requires OnVolume(g, total, fat, others, ch, dirSect, o) && |fat| >= 2
    ensures FreeCount(fat) + |ch| + AllocatorRuns.OnChains(others) == |fat| - 2
  {
    AllocatorRuns.Conservation(fat, WithChain(others, ch));
    if ch != [] {
      AllocatorRuns.OnChainsPick(others + {ch}, ch);
      assert others + {ch} - {ch} == others;
    }
  }

  /** The bytes of a file and its file pointer lie in the room of its chain. */
  lemma InRoom(fp: Fil)
    requires fp.Stable() && fp.fs.geo.csize > 0
    ensures |fp.contents| <= ClusterStart(fp.fs.geo, |fp.chain|)
    ensures fp.Cursor() ==> fp.fptr <= |fp.contents|
  {
    hide Fil.Stable, FatGeo, DataGeo, ChainOk, ChainOn;
    if |fp.contents| > 0 {
      ReadRoom(fp, |fp.contents|);
      DivBcs(|fp.contents| - 1, fp.fs.geo.csize);
      DivLess(|fp.contents| - 1, fp.fs.geo.csize * 512, |fp.chain|);
    }
  }

  lemma UnitPositive(g: Geo)
    requires g.csize > 0
    ensures ClusterStart(g, 1) > 0 && ClusterStart(g, 0) == 0
  {
  }

  lemma StartAdds(g: Geo, m: nat, n: nat)
    ensures ClusterStart(g, m + n) == ClusterStart(g, m) + ClusterStart(g, n)
  {
  }

  lemma StartLess(g: Geo, m: nat, n: nat)
    requires g.csize > 0
    ensures m <= n <==> ClusterStart(g, m) <= ClusterStart(g, n)
  {
    if m <= n {
      MulMonotone(m, n, g.csize * 512);
    } else {
      MulMonotone(n + 1, m, g.csize * 512);
    }
  }

  /** Whole clusters are what the first bytes of a file need. */
  lemma WholeStart(g: Geo, n: nat)
    requires g.csize > 0
    ensures ClusterStart(g, 1) > 0 && RoundedUp(n, ClusterStart(g, 1)) == ClusterStart(g, ClustersFor(g, n))
  {
    if n > 0 {
      DivBcs(n - 1, g.csize);
    }
  }

  /** A chain that reaches `n` bytes and got longer only for them has the whole clusters they need, or kept its room. */
  lemma RoomExact(g: Geo, ch: seq<nat>, ch': seq<nat>, n: nat)
    requires g.csize > 0 && |ch| <= |ch'| && LongEnough(g, ch, ch', n) && n <= ClusterStart(g, |ch'|)
    ensures ClusterStart(g, 1) > 0
    ensures ClusterStart(g, |ch'|) == Max(ClusterStart(g, |ch|), RoundedUp(n, ClusterStart(g, 1)))
  {
    WholeStart(g, n);
    if n > 0 {
      DivBcs(n - 1, g.csize);
      DivLess(n - 1, g.csize * 512, |ch'|);
    }
    hide ClusterStart, RoundedUp;
    assert ClustersFor(g, n) <= |ch'|;
    StartLess(g, ClustersFor(g, n), |ch'|);
    StartLess(g, |ch|, |ch'|);
    StartLess(g, |ch'|, ClustersFor(g, n));
  }

  /** A file pointer behind `q` clusters is behind their room. */
  lemma BehindClusters(g: Geo, at: nat, n: nat)
    requires g.csize > 0
    ensures at / 512 / g.csize >= n <==> at >= ClusterStart(g, n)
  {
    DivBcs(at, g.csize);
    DivLess(at, g.csize * 512, n);
  }

  /** How many bytes f_write writes. */
  lemma WriteCount(g: Geo, ch: seq<nat>, ch': seq<nat>, of: seq<nat>, mapped: bool, free: nat, free': nat, at: nat,
                   at': nat,
                   len: nat, x: Flat)
    requires g.csize > 0 && free + |ch| == free' + |ch'| && |ch| <= |ch'| && at <= at' <= at + len
    requires x.room == ClusterStart(g, |ch|) && x.free == ClusterStart(g, free) && (x.link == NoMap <==> !mapped)
    requires at <= ClusterStart(g, |ch|) && at' <= ClusterStart(g, |ch'|)
    requires mapped ==> (of == ch || (of == [] && |ch| == 1)) && (ch' == ch || (ch == [] && |ch'| == 1))
    requires at' < at + len ==> NowhereLeft(g, ch', of, mapped, free', at')
    ensures at <= Reach(x, ClusterStart(g, 1)) && at' == at + Min(len, Reach(x, ClusterStart(g, 1)) - at)
  {
    StartAdds(g, |ch|, free);
    StartAdds(g, |ch'|, free');
    StartLess(g, 1, free);
    StartLess(g, 1, |ch|);
    BehindClusters(g, at', |ch'|);
    UnitPositive(g);
    hide ClusterStart;
  }

  /** A transfer cannot go on at byte `at`. */
  ghost predicate NowhereLeft(g: Geo, ch: seq<nat>, of: seq<nat>, mapped: bool, free: nat, at: nat)
    requires g.csize > 0
  {
    var q := at / 512 / g.csize;
    if !mapped || ch == [] then free == 0 && q >= |ch| else q >= 1 && q >= |of|
  }

  lemma NoClusterMeans(fp: Fil)
    requires |fp.fs.fat| >= 2 && fp.fs.geo.csize > 0 && NoCluster(fp)
    ensures NowhereLeft(fp.fs.geo, fp.chain, fp.mapOf, fp.cltbl != null, FreeCount(fp.fs.fat), fp.fptr)
  {
  }

  /** The runs of a chain that had `n` clusters and has `n'` now. */
  predicate Rerun(x: Flat, y: Flat, n: nat, n': nat) {
    && y.widest == x.widest
    && if n' == n then y.runs == x.runs && y.runsOn == x.runsOn
       else (y.runsOn ==> y.widest) && if n' > n then x.runs <= y.runs <= x.runs + (n' - n) else y.runs <= x.runs
  }

  lemma GrownRuns(fat: seq<nat>, fat': seq<nat>, ch: seq<nat>, ch': seq<nat>, first: nat, x: Flat, y: Flat)
    requires Grown(fat, fat', ch, ch') && ChainOk(fat', ch', first)
    requires x.runs == Runs(ch) && x.runsOn == MarkRunsOn(fat, ch) && x.widest == IsEndMark(|fat|)
    requires y.runs == Runs(ch') && y.runsOn == MarkRunsOn(fat', ch') && y.widest == IsEndMark(|fat'|)
    ensures Rerun(x, y, |ch|, |ch'|)
  {
    RunsPrefix(ch', |ch|);
    assert ch'[..|ch|] == ch;
    if MarkRunsOn(fat', ch') {
      RunsOnExactly(fat', ch', 0, 0);
    }
    hide Runs, IsEndMark, IsChain;
  }

  lemma TruncatedRuns(fat: seq<nat>, ch: seq<nat>, k: nat, end: nat, x: Flat, y: Flat)
    requires (ch == [] || IsChain(fat, ch)) && k <= |ch| && IsEndMark(end) && end >= |fat|
    requires x.runs == Runs(ch) && x.runsOn == MarkRunsOn(fat, ch) && x.widest == IsEndMark(|fat|)
    requires var fat' := Truncated(fat, ch, k, end);
             y.runs == Runs(ch[..k]) && y.runsOn == MarkRunsOn(fat', ch[..k]) && y.widest == IsEndMark(|fat'|)
    ensures Rerun(x, y, |ch|, k)
  {
    RunsPrefix(ch, k);
    if k == |ch| {
      assert ch[..k] == ch;
      if k > 0 {
        assert Truncated(fat, ch, k, end) == fat;
      }
    } else if k > 0 {
      assert ch[k - 1] in ch && InTable(fat, ch[k - 1]);
      TruncatedEntry(fat, ch, k, end, ch[k - 1]);
      PrefixApartFrom(fat, ch, k);
      hide Runs, IsChain, Truncated;
    }
  }

  /** No cluster is twice on a chain. */
  lemma PrefixApartFrom(fat: seq<nat>, ch: seq<nat>, k: nat)
    requires IsChain(fat, ch) && 0 < k < |ch|
    ensures ch[k - 1] !in ch[k..]
  {
  }

  /** The room of the flat file follows the clusters. */
  lemma ResizedBy(g: Geo, n: nat, n': nat, free: nat, free': nat, x: Flat, y: Flat)
    requires g.csize > 0 && free + n == free' + n' && Rerun(x, y, n, n')
    requires x.room == ClusterStart(g, n) && x.free == ClusterStart(g, free)
    requires y.room == ClusterStart(g, n') && y.free == ClusterStart(g, free')
    ensures Resized(x, y, y.room, ClusterStart(g, 1))
  {
    StartAdds(g, n, free);
    StartAdds(g, n', free');
    StartLess(g, n, n');
    StartLess(g, n', n);
    if n' > n {
      StartAdds(g, n, n' - n);
      StartTimes(g, n' - n);
      hide *;
      MulMonotone(y.runs - x.runs, n' - n, ClusterStart(g, 1));
    }
    hide ClusterStart;
  }

  lemma StartTimes(g: Geo, n: nat)
    ensures ClusterStart(g, n) == n * ClusterStart(g, 1)
  {
  }

  /** f_write on the flat file. */
  lemma WriteFlat(g: Geo, ch: seq<nat>, ch': seq<nat>, of: seq<nat>, mapped: bool, free: nat, free': nat,
                  x: Flat, data: seq<byte>, count: nat, y: Flat)
    requires g.csize > 0 && free + |ch| == free' + |ch'| && |ch| <= |ch'| && count <= |data|
    requires x.room == ClusterStart(g, |ch|) && x.free == ClusterStart(g, free) && (x.link == NoMap <==> !mapped)
    requires y.room == ClusterStart(g, |ch'|) && y.free == ClusterStart(g, free') && y.link == x.link && !x.dead
             && !y.dead
    requires x.cursor <= |x.bytes| <= x.room && y.cursor == x.cursor + count <= y.room
    requires y.bytes == Patched(x.bytes, x.cursor, data[..count]) && LongEnough(g, ch, ch', y.cursor)
    requires mapped ==> (of == ch || (of == [] && |ch| == 1)) && (ch' == ch || (ch == [] && |ch'| == 1))
    requires Rerun(x, y, |ch|, |ch'|) && y.written
    requires x.cursor + |data| >= 0x1_0000_0000 ==> count == 0
    requires x.cursor + |data| < 0x1_0000_0000 && count < |data| ==> NowhereLeft(g, ch', of, mapped, free', y.cursor)
    ensures ClusterStart(g, 1) > 0 && FlatStep(x, WriteOp(data), BytesWritten(count), y, ClusterStart(g, 1))
  {
    hide ClusterStart, LongEnough, NowhereLeft, Reach, RoundedUp, Patched, Rerun, Resized;
    ResizedBy(g, |ch|, |ch'|, free, free', x, y);
    RoomExact(g, ch, ch', y.cursor);
    if x.cursor + |data| < 0x1_0000_0000 {
      WriteCount(g, ch, ch', of, mapped, free, free', x.cursor, y.cursor, |data|, x);
    } else {
      WriteCount(g, ch, ch, of, mapped, free, free, x.cursor, x.cursor, 0, x);
    }
  }

  /** f_lseek without a link map on the flat file. */
  lemma SeekFlat(g: Geo, ch: seq<nat>, ch': seq<nat>, free: nat, free': nat, x: Flat, ofs: nat, y: Flat)
    requires g.csize > 0 && free + |ch| == free' + |ch'| && |ch| <= |ch'|
    requires x.room == ClusterStart(g, |ch|) && x.free == ClusterStart(g, free) && x.link == y.link == NoMap
    requires y.room == ClusterStart(g, |ch'|) && y.free == ClusterStart(g, free') && !x.dead && !y.dead
    requires |x.bytes| <= x.room && |y.bytes| <= y.room && y.cursor <= |y.bytes|
    requires x.bytes <= y.bytes && |y.bytes| == Max(y.cursor, |x.bytes|) && LongEnough(g, ch, ch', y.cursor)
    requires y.cursor == ofs || (y.cursor < ofs && free' == 0 && y.cursor == y.room)
    requires Rerun(x, y, |ch|, |ch'|) && y.written == (x.written || |y.bytes| > |x.bytes|)
    ensures ClusterStart(g, 1) > 0 && FlatStep(x, SeekOp(ofs), Done, y, ClusterStart(g, 1))
  {
    ResizedBy(g, |ch|, |ch'|, free, free', x, y);
    UnitPositive(g);
    hide ClusterStart, LongEnough, RoundedUp, Rerun, Resized;
    RoomExact(g, ch, ch', y.cursor);
  }

  /** f_truncate on the flat file. */
  lemma TruncateFlat(g: Geo, n: nat, n': nat, free: nat, free': nat, x: Flat, y: Flat)
    requires g.csize > 0 && free + n == free' + n'
    requires x.room == ClusterStart(g, n) && x.free == ClusterStart(g, free) && !x.dead && !y.dead && y.link == NoMap
    requires y.room == ClusterStart(g, n') && y.free == ClusterStart(g, free')
    requires x.cursor <= |x.bytes| && y.cursor == x.cursor && y.bytes == x.bytes[..x.cursor]
    requires n' == if x.cursor < |x.bytes| then ClustersFor(g, x.cursor) else n
    requires Rerun(x, y, n, n') && y.written == (x.written || x.cursor < |x.bytes|)
    ensures ClusterStart(g, 1) > 0 && FlatStep(x, TruncateOp, Done, y, ClusterStart(g, 1))
  {
    hide ClusterStart, RoundedUp, Rerun, Resized;
    ResizedBy(g, n, n', free, free', x, y);
    WholeStart(g, x.cursor);
  }

  // ----- what the operations need and keep -----

  /** What a ready file that is not dead offers its operations. */
  lemma ReadyMeans(fp: Fil, others: set<seq<nat>>)
    requires Ready(fp, others)
    ensures fp.Open() && fp.Sound() && (fp.err == FrOk ==> fp.Valid()) && ChainOk(fp.fs.fat, fp.chain, fp.sclust)
    ensures FatGeo(fp.fs.geo, |fp.fs.disk|) && DataGeo(fp.fs.geo, |fp.fs.disk|) && |fp.fs.logical| == |fp.fs.disk|
    ensures FreeCount(fp.fs.fat) + |fp.chain| + AllocatorRuns.OnChains(others) == |fp.fs.fat| - 2
    ensures |fp.contents| <= ClusterStart(fp.fs.geo, |fp.chain|)
    ensures fp.err == FrOk ==> fp.fptr <= |fp.contents| == fp.fsize
    ensures Unbroken(fp.fs.fat) && MapFits(fp) && fp.MapUsable()
    ensures OnVolume(fp.fs.geo, |fp.fs.disk|, fp.fs.fat, others, fp.chain, fp.dirSect, fp.dirOffset)
  {
    SoundOpen(fp);
    Conserved(fp.fs.geo, |fp.fs.disk|, fp.fs.fat, others, fp.chain, fp.dirSect, fp.dirOffset);
    InRoom(fp);
    ForestUnbroken(fp.fs.fat, WithChain(others, fp.chain));
    hide FatGeo, DataGeo, ChainOk, ChainOn, BufferOk, Holds, Avail, CursorAt, Forest, EntryPlace, FreeCount;
    hide ClusterStart, Unbroken;
  }

  /** The parts of the flat file. */
  lemma FlatParts(fp: Fil)
    requires |fp.fs.fat| >= 2
    ensures var x := FlatOf(fp);
            && x.bytes == fp.contents && x.cursor == fp.fptr && (x.dead <==> fp.err != FrOk)
            && x.room == ClusterStart(fp.fs.geo, |fp.chain|) && x.free == ClusterStart(fp.fs.geo, FreeCount(fp.fs.fat))
            && x.runs == Runs(fp.chain) && x.runsOn == MarkRunsOn(fp.fs.fat, fp.chain)
            && x.widest == IsEndMark(|fp.fs.fat|) && x.written == fp.written
            && x.link == if fp.cltbl == null then NoMap else Covers(ClusterStart(fp.fs.geo, |fp.mapOf|))
  {
  }

  lemma UnitIs(fp: Fil)
    ensures Unit(fp) == ClusterStart(fp.fs.geo, 1)
  {
  }

  lemma MapFitsMeans(fp: Fil)
    ensures MapFits(fp) <==> fp.cltbl != null ==>
              fp.mapOk
              && (fp.mapOf == fp.chain || (fp.mapOf == [] && |fp.chain| == 1))
  {
  }

  lemma OpenSound(fp: Fil)
    requires fp.Open() && fp.err == FrOk
    ensures fp.Sound() && fp.fptr <= |fp.contents| && fp.fs.geo.csize > 0
  {
    OpenMeans(fp);
    ValidSound(fp);
  }

  /** A file whose chain grew is ready again, and the other files kept their bytes. */
  lemma GrownReady(fp: Fil, g: Geo, fat: seq<nat>, others: set<seq<nat>>, ch: seq<nat>, first: nat, l: seq<Sector>)
    requires fp.Sound() && fp.canRead && fp.canWrite && MapFits(fp) && g == fp.fs.geo
    requires OnVolume(g, |l|, fat, others, ch, fp.dirSect, fp.dirOffset) && ChainOk(fat, ch, first)
    requires Grown(fat, fp.fs.fat, ch, fp.chain) && Elsewhere(g, fp.chain, l, fp.fs.logical) && |l| == |fp.fs.disk|
    ensures Ready(fp, others) && OthersKept(g, others, l, fp.fs.logical, fp.dirSect, fp.dirOffset)
  {
    hide FatGeo, DataGeo, ChainOk, ChainOn, BufferOk, Holds, Avail, CursorAt, OnVolume, Grown, Elsewhere, OthersKept;
    hide Fil.MapGood;
    GrownVolume(g, |l|, fat, fp.fs.fat, others, ch, fp.chain, first, fp.sclust, fp.dirSect, fp.dirOffset);
    ElsewhereOthers(g, fp.fs.fat, others, fp.chain, l, fp.fs.logical, fp.dirSect, fp.dirOffset);
  }

  // ----- the operations -----

  /** Arguments fit their 32-bit parameters, and a table has room for its size. */
  predicate Allowed(op: FileOp) {
    match op
    case WriteOp(data) => |data| < 0x1_0000_0000
    case SeekOp(ofs) => ofs < 0x1_0000_0000
    case LinkMapOp(size) => size > 0
    case _ => true
  }

  method DoRead(fp: Fil, n: nat, ghost others: set<seq<nat>>) returns (a: Answer)
    requires Ready(fp, others) && fp.err == FrOk
    modifies fp.fs`disk, fp.fs`logical, fp.fs`wflag, fp.fs`winsect, fp.fs.win
    modifies fp`fptr, fp`clust, fp`dsect, fp`dirty, fp`err, fp.buf
    ensures Ready(fp, others)
    ensures FlatStep(old(FlatOf(fp)), ReadOp(n), a, FlatOf(fp), Unit(fp))
    ensures OthersKept(fp.fs.geo, others, old(fp.fs.logical), fp.fs.logical, fp.dirSect, fp.dirOffset)
  {
    hide *;
    ReadyMeans(fp, others);
    ReadyKnown(fp, others);
    ghost var fat, ch, first, l, x, of := fp.fs.fat, fp.chain, fp.sclust, fp.fs.logical, FlatOf(fp), fp.mapOf;
    var bytes := ReadLive(fp, n);
    a := BytesRead(bytes);
    AfterRead(fp, others, fat, ch, first, l, x, n, bytes);
  }

  /** A link map that fits the chain never ends before the file does. */
  lemma GivenFits(c: nat, at: nat, k: nat, want: nat)
    requires c > 0 && (at + want <= k * (c * 512) || at + want <= c * 512)
    ensures Given(c, at, true, k, want) == want
  {
    StopBehind(c, at, k);
  }

  /** What f_read did to a file that was not aborted, with a link map that fits. */
  ghost predicate Got(fp: Fil, fat: seq<nat>, ch: seq<nat>, l: seq<Sector>, c: seq<byte>, at: nat, n: nat,
                      bytes: seq<byte>, w: bool)
    reads fp, fp.fs
  {
    && fp.fs.fat == fat && |fat| >= 3 && |fp.fs.disk| == |l| && fp.err == FrOk && fp.fs.geo.csize > 0
    && fp.contents == c && fp.chain == ch && at <= |c| && fp.fptr == Min(at + n, |c|) && bytes == c[at..fp.fptr]
    && fp.written == w && Elsewhere(fp.fs.geo, ch, l, fp.fs.logical)
  }

  method ReadLive(fp: Fil, n: nat) returns (bytes: seq<byte>)
    requires fp.Open() && fp.Sound() && fp.err == FrOk && fp.canRead && fp.MapUsable() && MapFits(fp)
    requires |fp.contents| <= ClusterStart(fp.fs.geo, |fp.chain|)
    modifies fp.fs`disk, fp.fs`logical, fp.fs`wflag, fp.fs`winsect, fp.fs.win
    modifies fp`fptr, fp`clust, fp`dsect, fp`dirty, fp`err, fp.buf
    ensures fp.Sound() && MapFits(fp) && fp.fs.geo == old(fp.fs.geo) && fp.cltbl == old(fp.cltbl)
    ensures fp.mapOf == old(fp.mapOf) && fp.dirSect == old(fp.dirSect) && fp.dirOffset == old(fp.dirOffset)
    ensures Got(fp, old(fp.fs.fat), old(fp.chain), old(fp.fs.logical), old(fp.contents), old(fp.fptr), n, bytes,
                old(fp.written))
  {
    hide *;
    DriveSize(fp);
    OpenSized(fp);
    OpenSound(fp);
    ghost var fat, ch, l, c, at, w := fp.fs.fat, fp.chain, fp.fs.logical, fp.contents, fp.fptr, fp.written;
    AllGiven(fp, n);
    MinIs(n, fp.fsize - at);
    var into := new byte[n];
    var res, br := FRead(fp, into, n);
    bytes := into[..br];
    OpenSized(fp);
    DriveSize(fp);
    OpenSound(fp);
    ElsewhereSize(fp.fs.geo, ch, l, fp.fs.logical);
    GotIs(fp, fat, ch, l, c, at, n, bytes, w);
    MapFitsMeans(fp);
  }

  lemma ElsewhereSize(g: Geo, ch: seq<nat>, l: seq<Sector>, l': seq<Sector>)
    requires Elsewhere(g, ch, l, l')
    ensures |l'| == |l|
  {
  }

  lemma MinIs(a: nat, b: nat)
    ensures Min(a, b) == if a < b then a else b
  {
  }

  lemma GotIs(fp: Fil, fat: seq<nat>, ch: seq<nat>, l: seq<Sector>, c: seq<byte>, at: nat, n: nat, bytes: seq<byte>,
              w: bool)
    requires fp.fs.fat == fat && |fat| >= 3 && |fp.fs.disk| == |l| && fp.err == FrOk && fp.fs.geo.csize > 0
    requires fp.contents == c && fp.chain == ch && at <= |c| && fp.written == w
    requires fp.fptr == at + (if n < |c| - at then n else |c| - at) && bytes == c[at..fp.fptr]
    requires Elsewhere(fp.fs.geo, ch, l, fp.fs.logical)
    ensures Got(fp, fat, ch, l, c, at, n, bytes, w)
  {
    hide Elsewhere;
  }

  lemma AllGiven(fp: Fil, n: nat)
    requires MapFits(fp) && fp.fs.geo.csize > 0 && fp.fptr <= |fp.contents| == fp.fsize
    requires |fp.contents| <= ClusterStart(fp.fs.geo, |fp.chain|)
    ensures var want := Min(n, fp.fsize - fp.fptr);
            Given(fp.fs.geo.csize, fp.fptr, fp.cltbl != null, |fp.mapOf|, want) == want
  {
    hide Given;
    var want := Min(n, fp.fsize - fp.fptr);
    if fp.cltbl != null {
      GivenFits(fp.fs.geo.csize, fp.fptr, |fp.mapOf|, want);
    } else {
      GivenWhole(fp.fs.geo.csize, fp.fptr, |fp.mapOf|, want);
    }
  }

  lemma GivenWhole(c: nat, at: nat, k: nat, want: nat)
    requires c > 0
    ensures Given(c, at, false, k, want) == want
  {
  }

  lemma AfterRead(fp: Fil, others: set<seq<nat>>, fat: seq<nat>, ch: seq<nat>, first: nat, l: seq<Sector>, x: Flat,
                  n: nat, bytes: seq<byte>)
    requires fp.Sound() && fp.canRead && fp.canWrite && MapFits(fp)
    requires Known(fp.fs.geo, fat, others, ch, first, l, x, fp.dirSect, fp.dirOffset, fp.cltbl != null, fp.mapOf)
    requires Got(fp, fat, ch, l, x.bytes, x.cursor, n, bytes, x.written)
    ensures Ready(fp, others) && FlatStep(x, ReadOp(n), BytesRead(bytes), FlatOf(fp), Unit(fp))
    ensures OthersKept(fp.fs.geo, others, l, fp.fs.logical, fp.dirSect, fp.dirOffset)
  {
    hide FatGeo, DataGeo, ChainOk, ChainOn, Elsewhere, OnVolume, FreeCount, Fil.Sound, Fil.Open;
    hide Ready, OthersKept, ClusterStart, Runs, MarkRunsOn, AllocatorRuns.OnChains, IsEndMark, MapFits;
    UnitPositive(fp.fs.geo);
    RelinkedFlat(fp, others, fp.fs.geo, fat, ch, first, l);
  }

  /** What is known of a ready file before an operation, as values. */
  ghost predicate Known(g: Geo, fat: seq<nat>, others: set<seq<nat>>, ch: seq<nat>, first: nat, l: seq<Sector>, x: Flat,
                        dirSect: nat, o: nat, mapped: bool, of: seq<nat>)
  {
    && g.csize > 0 && |fat| >= 2 && OnVolume(g, |l|, fat, others, ch, dirSect, o) && ChainOk(fat, ch, first)
    && FreeCount(fat) + |ch| + AllocatorRuns.OnChains(others) == |fat| - 2
    && x.room == ClusterStart(g, |ch|) && x.free == ClusterStart(g, FreeCount(fat)) && !x.dead
    && x.cursor <= |x.bytes| <= x.room
    && x.runs == Runs(ch) && x.runsOn == MarkRunsOn(fat, ch) && x.widest == IsEndMark(|fat|)
    && x.link == (if mapped then Covers(ClusterStart(g, |of|)) else NoMap)
    && (mapped ==> of == ch || (of == [] && |ch| == 1))
  }

  lemma KnownIs(g: Geo, fat: seq<nat>, others: set<seq<nat>>, ch: seq<nat>, first: nat, l: seq<Sector>, x: Flat,
                dirSect: nat, o: nat, mapped: bool, of: seq<nat>)
    requires g.csize > 0 && |fat| >= 2 && OnVolume(g, |l|, fat, others, ch, dirSect, o) && ChainOk(fat, ch, first)
    requires FreeCount(fat) + |ch| + AllocatorRuns.OnChains(others) == |fat| - 2
    requires x.room == ClusterStart(g, |ch|) && x.free == ClusterStart(g, FreeCount(fat)) && !x.dead
    requires x.cursor <= |x.bytes| <= x.room && x.link == (if mapped then Covers(ClusterStart(g, |of|)) else NoMap)
    requires mapped ==> of == ch || (of == [] && |ch| == 1)
    requires x.runs == Runs(ch) && x.runsOn == MarkRunsOn(fat, ch) && x.widest == IsEndMark(|fat|)
    ensures Known(g, fat, others, ch, first, l, x, dirSect, o, mapped, of)
  {
    hide OnVolume, ChainOk, FreeCount, AllocatorRuns.OnChains, ClusterStart, Runs, MarkRunsOn, IsEndMark;
  }

  lemma ReadyKnown(fp: Fil, others: set<seq<nat>>)
    requires Ready(fp, others) && fp.err == FrOk
    ensures fp.Open() && fp.Sound() && fp.MapUsable() && Unbroken(fp.fs.fat) && fp.canRead
            && fp.canWrite
    ensures Known(fp.fs.geo, fp.fs.fat, others, fp.chain, fp.sclust, fp.fs.logical, FlatOf(fp), fp.dirSect,
            fp.dirOffset,
                  fp.cltbl != null, fp.mapOf)
    ensures FlatOf(fp).bytes == fp.contents && FlatOf(fp).cursor == fp.fptr
    ensures FlatOf(fp).written == fp.written
    ensures fp.cltbl != null ==> fp.mapOk
  {
    hide *;
    ReadyMeans(fp, others);
    FlatParts(fp);
    MapFitsMeans(fp);
    ReadyCan(fp, others);
    KnownIs(fp.fs.geo, fp.fs.fat, others, fp.chain, fp.sclust, fp.fs.logical, FlatOf(fp), fp.dirSect, fp.dirOffset,
            fp.cltbl != null, fp.mapOf);
  }

  lemma ReadyCan(fp: Fil, others: set<seq<nat>>)
    requires Ready(fp, others)
    ensures fp.canRead && fp.canWrite
  {
  }

  method DoWrite(fp: Fil, data: seq<byte>, ghost others: set<seq<nat>>) returns (a: Answer)
    requires Ready(fp, others) && fp.err == FrOk && |data| < 0x1_0000_0000
    modifies fp.fs`disk, fp.fs`logical, fp.fs`fat, fp.fs`wflag, fp.fs`winsect, fp.fs`lastClust, fp.fs`freeClust
    modifies fp.fs`fsiDirty, fp.fs.win, fp`chain, fp`sclust, fp`clust, fp`dirty, fp`dsect, fp`growing, fp`contents
    modifies fp`fptr, fp.buf
    modifies fp`fsize, fp`written, fp`err
    ensures Ready(fp, others)
    ensures FlatStep(old(FlatOf(fp)), WriteOp(data), a, FlatOf(fp), Unit(fp))
    ensures OthersKept(fp.fs.geo, others, old(fp.fs.logical), fp.fs.logical, fp.dirSect, fp.dirOffset)
    ensures old(FreeExact(fp.fs)) ==> FreeExact(fp.fs)
  {
    ReadyKnown(fp, others);
    hide *;
    ghost var fat, ch, first, l, x, of := fp.fs.fat, fp.chain, fp.sclust, fp.fs.logical, FlatOf(fp), fp.mapOf;
    var bw := WriteLive(fp, data);
    a := BytesWritten(bw);
    AfterWrite(fp, others, fat, ch, first, l, x, data, bw);
  }

  /** What f_write did to a file that was not aborted, on a FAT without broken entries. */
  ghost predicate Wrote(fp: Fil, fat: seq<nat>, ch: seq<nat>, l: seq<Sector>, c: seq<byte>, at: nat, data: seq<byte>,
                        bw: nat)
    reads fp, fp.fs
  {
    && |fp.fs.fat| == |fat| >= 3 && |fp.fs.disk| == |l| && fp.err == FrOk && fp.fs.geo.csize > 0
    && fp.written && bw <= |data| && at <= |c| && fp.fptr == at + bw && fp.contents == Patched(c, at, data[..bw])
    && (if at + |data| >= 0x1_0000_0000 then bw == 0
        else bw < |data| ==>
          NowhereLeft(fp.fs.geo, fp.chain, fp.mapOf, fp.cltbl != null, FreeCount(fp.fs.fat), fp.fptr))
    && Grown(fat, fp.fs.fat, ch, fp.chain) && Elsewhere(fp.fs.geo, fp.chain, l, fp.fs.logical)
    && GrownBy(fp.fs.geo, ch, fp.chain, fp.fptr, fp.cltbl != null)
  }

  method WriteLive(fp: Fil, data: seq<byte>) returns (bw: nat)
    requires fp.Open() && fp.err == FrOk && fp.canWrite && fp.MapUsable() && Unbroken(fp.fs.fat)
             && |data| < 0x1_0000_0000
    modifies fp.fs`disk, fp.fs`logical, fp.fs`fat, fp.fs`wflag, fp.fs`winsect, fp.fs`lastClust, fp.fs`freeClust
    modifies fp.fs`fsiDirty, fp.fs.win, fp`chain, fp`sclust, fp`clust, fp`dirty, fp`dsect, fp`growing, fp`contents
    modifies fp`fptr, fp.buf
    modifies fp`fsize, fp`written, fp`err
    ensures fp.Sound() && fp.MapUsable() && fp.cltbl == old(fp.cltbl) && fp.mapOf == old(fp.mapOf)
    ensures fp.fs.geo == old(fp.fs.geo) && fp.dirSect == old(fp.dirSect) && fp.dirOffset == old(fp.dirOffset)
    ensures Wrote(fp, old(fp.fs.fat), old(fp.chain), old(fp.fs.logical), old(fp.contents), old(fp.fptr), data, bw)
    ensures old(FreeExact(fp.fs)) ==> FreeExact(fp.fs)
  {
    hide Fil.Open, Fil.Sound, Fil.MapUsable, Unbroken, Grown, NoCluster, FreeExact, Patched, GrownBy, NowhereLeft;
    ghost var fat, l, at := fp.fs.fat, fp.fs.logical, fp.fptr;
    DriveSize(fp);
    var res;
    res, bw := FWrite(fp, data);
    DriveSize(fp);
    OpenSound(fp);
    if bw < |data| && at + |data| < 0x1_0000_0000 {
      NoClusterMeans(fp);
    }
  }

  lemma DriveSize(fp: Fil)
    requires fp.Open()
    ensures |fp.fs.logical| == |fp.fs.disk| && |fp.fs.fat| >= 3 && |fp.fs.fat| == fp.fs.geo.nFatent
  {
    hide Fil.Valid, FatGeo;
  }

  /** What f_write left, compared to what it found. */
  lemma AfterWrite(fp: Fil, others: set<seq<nat>>, fat: seq<nat>, ch: seq<nat>, first: nat, l: seq<Sector>, x: Flat,
                   data: seq<byte>, bw: nat)
    requires fp.Sound() && fp.canRead && fp.canWrite && fp.MapUsable()
    requires Known(fp.fs.geo, fat, others, ch, first, l, x, fp.dirSect, fp.dirOffset, fp.cltbl != null, fp.mapOf)
    requires Wrote(fp, fat, ch, l, x.bytes, x.cursor, data, bw)
    ensures Ready(fp, others) && FlatStep(x, WriteOp(data), BytesWritten(bw), FlatOf(fp), Unit(fp))
    ensures OthersKept(fp.fs.geo, others, l, fp.fs.logical, fp.dirSect, fp.dirOffset)
  {
    hide FatGeo, DataGeo, ChainOk, ChainOn, Patched, NowhereLeft, Grown, Elsewhere, OnVolume, FreeCount, Fil.Sound;
    hide Fil.Open, LongEnough;
    hide Ready, FlatStep, OthersKept, ClusterStart, Runs, MarkRunsOn, AllocatorRuns.OnChains, Unbroken, IsEndMark;
    hide Rerun;
    GrownReady(fp, fp.fs.geo, fat, others, ch, first, l);
    ReadyMeans(fp, others);
    GrownRuns(fat, fp.fs.fat, ch, fp.chain, fp.sclust, x, FlatOf(fp));
    WriteFlat(fp.fs.geo, ch, fp.chain, fp.mapOf, fp.cltbl != null, FreeCount(fat), FreeCount(fp.fs.fat), x, data, bw,
      FlatOf(fp));
  }

  /** What a normal f_lseek did to a file that was not aborted, on a FAT without broken entries. */
  ghost predicate Went(fp: Fil, fat: seq<nat>, ch: seq<nat>, l: seq<Sector>, c: seq<byte>, ofs: nat, w: bool)
    reads fp, fp.fs
  {
    && |fp.fs.fat| == |fat| >= 3 && |fp.fs.disk| == |l| && fp.err == FrOk && fp.cltbl == null
    && (fp.fptr == ofs || (fp.fptr < ofs && FreeCount(fp.fs.fat) == 0
       && fp.fptr == ClusterStart(fp.fs.geo, |fp.chain|)))
    && c <= fp.contents && |fp.contents| == Max(fp.fptr, |c|) && fp.written == (w || |fp.contents| > |c|)
    && Grown(fat, fp.fs.fat, ch, fp.chain) && Elsewhere(fp.fs.geo, fp.chain, l, fp.fs.logical)
    && LongEnough(fp.fs.geo, ch, fp.chain, fp.fptr)
  }

  method SeekLive(fp: Fil, ofs: nat)
    requires fp.Sound() && fp.Open() && fp.err == FrOk && fp.canWrite && fp.cltbl == null && Unbroken(fp.fs.fat)
             && ofs < 0x1_0000_0000
    modifies fp.fs`disk, fp.fs`logical, fp.fs`fat, fp.fs`wflag, fp.fs`winsect, fp.fs`lastClust, fp.fs`freeClust
    modifies fp.fs`fsiDirty, fp.fs.win, fp`chain, fp`sclust, fp`clust, fp`fptr, fp`dirty, fp`dsect, fp`fsize, fp`written
    modifies fp`contents, fp.buf
    modifies fp`err, fp`mapOk, fp`mapOf, fp.cltbl
    ensures fp.Sound() && fp.MapUsable() && fp.cltbl == null
    ensures fp.fs.geo == old(fp.fs.geo) && fp.dirSect == old(fp.dirSect) && fp.dirOffset == old(fp.dirOffset)
    ensures Went(fp, old(fp.fs.fat), old(fp.chain), old(fp.fs.logical), old(fp.contents), ofs, old(fp.written))
    ensures old(FreeExact(fp.fs)) ==> FreeExact(fp.fs)
  {
    hide Fil.Open, Fil.Sound, Fil.MapUsable, Unbroken, Grown, FreeExact, LongEnough, ClusterStart, FreeCount, MapMade;
    DriveSize(fp);
    OpenSized(fp);
    NoMapUsable(fp);
    var res := FSeek(fp, ofs);
    DriveSize(fp);
    OpenSized(fp);
    NoMapUsable(fp);
  }

  lemma OpenSized(fp: Fil)
    requires fp.Open() && fp.err == FrOk
    ensures |fp.contents| == fp.fsize && fp.fptr <= fp.fsize
  {
    OpenMeans(fp);
    ValidSound(fp);
    hide *;
    OpenSound(fp);
  }

  lemma NoMapUsable(fp: Fil)
    requires fp.cltbl == null
    ensures fp.MapUsable() && MapFits(fp)
  {
  }

  lemma AfterSeek(fp: Fil, others: set<seq<nat>>, fat: seq<nat>, ch: seq<nat>, first: nat, l: seq<Sector>, x: Flat,
                  of: seq<nat>, ofs: nat)
    requires fp.Sound() && fp.canRead && fp.canWrite
    requires Known(fp.fs.geo, fat, others, ch, first, l, x, fp.dirSect, fp.dirOffset, false, of)
    requires Went(fp, fat, ch, l, x.bytes, ofs, x.written)
    ensures Ready(fp, others) && FlatStep(x, SeekOp(ofs), Done, FlatOf(fp), Unit(fp))
    ensures OthersKept(fp.fs.geo, others, l, fp.fs.logical, fp.dirSect, fp.dirOffset)
  {
    hide FatGeo, DataGeo, ChainOk, ChainOn, Grown, Elsewhere, OnVolume, FreeCount, Fil.Sound, Fil.Open, LongEnough;
    hide Ready, FlatStep, OthersKept, ClusterStart, Runs, MarkRunsOn, AllocatorRuns.OnChains, Unbroken, IsEndMark;
    hide Rerun;
    GrownReady(fp, fp.fs.geo, fat, others, ch, first, l);
    ReadyMeans(fp, others);
    GrownRuns(fat, fp.fs.fat, ch, fp.chain, fp.sclust, x, FlatOf(fp));
    SeekFlat(fp.fs.geo, ch, fp.chain, FreeCount(fat), FreeCount(fp.fs.fat), x, ofs, FlatOf(fp));
  }

  /** What a fast f_lseek did. */
  ghost predicate WentFast(fp: Fil, fat: seq<nat>, ch: seq<nat>, l: seq<Sector>, c: seq<byte>, ofs: nat, w: bool)
    reads fp, fp.fs
  {
    && fp.fs.fat == fat && |fat| >= 3 && |fp.fs.disk| == |l| && fp.cltbl != null
    && fp.contents == c && fp.chain == ch && fp.fptr == Min(ofs, |c|) && fp.written == w
    && (fp.err == FrOk <==> Mapped(fp.fs.geo, fp.mapOf, fp.fptr))
    && Elsewhere(fp.fs.geo, ch, l, fp.fs.logical)
  }

  method SeekFastLive(fp: Fil, ofs: nat) returns (res: FResult)
    requires fp.Sound() && fp.Open() && fp.err == FrOk && fp.cltbl != null && fp.mapOk && ofs < CREATE_LINKMAP
    modifies fp.fs`disk, fp.fs`logical, fp.fs`fat, fp.fs`wflag, fp.fs`winsect, fp.fs`lastClust, fp.fs`freeClust
    modifies fp.fs`fsiDirty, fp.fs.win, fp`chain, fp`sclust, fp`clust, fp`fptr, fp`dirty, fp`dsect, fp`fsize, fp`written
    modifies fp`contents, fp.buf
    modifies fp`err, fp`mapOk, fp`mapOf, fp.cltbl
    ensures fp.Sound() && fp.mapOk && fp.mapOf == old(fp.mapOf) && fp.cltbl == old(fp.cltbl) && res == fp.err
    ensures fp.fs.geo == old(fp.fs.geo) && fp.dirSect == old(fp.dirSect) && fp.dirOffset == old(fp.dirOffset)
    ensures WentFast(fp, old(fp.fs.fat), old(fp.chain), old(fp.fs.logical), old(fp.contents), ofs, old(fp.written))
    ensures old(FreeExact(fp.fs)) ==> FreeExact(fp.fs)
  {
    hide Fil.Open, Fil.Sound, Unbroken, Grown, FreeExact, LongEnough, ClusterStart, FreeCount, MapMade, Mapped;
    DriveSize(fp);
    OpenSized(fp);
    res := FSeek(fp, ofs);
    DriveSize(fp);
  }

  lemma MappedIs(g: Geo, of: seq<nat>, at: nat)
    requires g.csize > 0
    ensures Mapped(g, of, at) <==> at <= ClusterStart(g, |of|)
  {
    if at > 0 {
      DivBcs(at - 1, g.csize);
      DivLess(at - 1, g.csize * 512, |of|);
    }
  }

  lemma AfterFast(fp: Fil, others: set<seq<nat>>, ch: seq<nat>, first: nat, l: seq<Sector>, x: Flat, ofs: nat)
    requires ofs < CREATE_LINKMAP && fp.Sound() && fp.canRead && fp.canWrite && fp.mapOk
    requires Known(fp.fs.geo, fp.fs.fat, others, ch, first, l, x, fp.dirSect, fp.dirOffset, true, fp.mapOf)
    requires WentFast(fp, fp.fs.fat, ch, l, x.bytes, ofs, x.written)
    ensures Ready(fp, others)
            && FlatStep(x, SeekOp(ofs), if fp.err == FrOk then Done else Refused, FlatOf(fp), Unit(fp))
    ensures OthersKept(fp.fs.geo, others, l, fp.fs.logical, fp.dirSect, fp.dirOffset)
  {
    hide FatGeo, DataGeo, ChainOk, ChainOn, Grown, Elsewhere, OnVolume, FreeCount, Fil.Sound, Fil.Open, LongEnough;
    hide Ready, OthersKept, ClusterStart, Runs, MarkRunsOn, AllocatorRuns.OnChains, Unbroken, Mapped, IsEndMark;
    UnitPositive(fp.fs.geo);
    GrownRefl(fp.fs.fat, ch);
    GrownReady(fp, fp.fs.geo, fp.fs.fat, others, ch, first, l);
    MappedIs(fp.fs.geo, fp.mapOf, fp.fptr);
  }

  method DoSeek(fp: Fil, ofs: nat, ghost others: set<seq<nat>>) returns (a: Answer)
    requires Ready(fp, others) && fp.err == FrOk && ofs < 0x1_0000_0000 && !AsksForMap(fp.cltbl, ofs)
    modifies fp.fs`disk, fp.fs`logical, fp.fs`fat, fp.fs`wflag, fp.fs`winsect, fp.fs`lastClust, fp.fs`freeClust
    modifies fp.fs`fsiDirty, fp.fs.win, fp`chain, fp`sclust, fp`clust, fp`fptr, fp`dirty, fp`dsect, fp`fsize, fp`written
    modifies fp`contents, fp.buf
    modifies fp`err, fp`mapOk, fp`mapOf, fp.cltbl
    ensures Ready(fp, others)
    ensures FlatStep(old(FlatOf(fp)), SeekOp(ofs), a, FlatOf(fp), Unit(fp))
    ensures OthersKept(fp.fs.geo, others, old(fp.fs.logical), fp.fs.logical, fp.dirSect, fp.dirOffset)
    ensures old(FreeExact(fp.fs)) ==> FreeExact(fp.fs)
  {
    ReadyKnown(fp, others);
    ghost var fat, ch, first, l, x, of := fp.fs.fat, fp.chain, fp.sclust, fp.fs.logical, FlatOf(fp), fp.mapOf;
    hide *;
    if fp.cltbl == null {
      SeekLive(fp, ofs);
      AfterSeek(fp, others, fat, ch, first, l, x, of, ofs);
      a := Done;
    } else {
      var res := SeekFastLive(fp, ofs);
      AfterFast(fp, others, ch, first, l, x, ofs);
      a := if res == FrOk then Done else Refused;
    }
  }

  /** The application goes back to normal seek. */
  method Detach(fp: Fil)
    requires fp.Sound()
    modifies fp`cltbl
    ensures fp.Sound() && fp.cltbl == null
  {
    hide Fatfs.Valid, FatGeo, DataGeo, ChainOk, ChainOn, Avail, BufferOk, Holds, CursorAt;
    fp.cltbl := null;
  }

  /** The application attaches a table; its first item gives its size. */
  method Attach(fp: Fil, size: nat)
    requires fp.Sound() && size > 0
    modifies fp`cltbl, fp`mapOk
    ensures fp.Sound() && fp.cltbl != null && fresh(fp.cltbl) && fp.cltbl.Length == size && fp.cltbl[0] == size
            && !fp.mapOk
  {
    hide Fatfs.Valid, FatGeo, DataGeo, ChainOk, ChainOn, Avail, BufferOk, Holds, CursorAt, MapsChain;
    var tbl := new nat[size](_ => size);
    fp.mapOk := false;
    fp.cltbl := tbl;
  }

  /** The flat file when nothing but the link map changed. */
  lemma RelinkedFlat(fp: Fil, others: set<seq<nat>>, g: Geo, fat: seq<nat>, ch: seq<nat>, first: nat, l: seq<Sector>)
    requires fp.Sound() && fp.canRead && fp.canWrite && MapFits(fp) && g == fp.fs.geo && |l| == |fp.fs.disk|
    requires OnVolume(g, |l|, fat, others, ch, fp.dirSect, fp.dirOffset) && ChainOk(fat, ch, first)
    requires fp.fs.fat == fat && fp.chain == ch && Elsewhere(g, ch, l, fp.fs.logical)
    ensures Ready(fp, others) && OthersKept(g, others, l, fp.fs.logical, fp.dirSect, fp.dirOffset)
  {
    hide *;
    GrownRefl(fat, ch);
    GrownReady(fp, g, fat, others, ch, first, l);
  }

  method DoDetach(fp: Fil, ghost others: set<seq<nat>>) returns (a: Answer)
    requires Ready(fp, others)
    modifies fp`cltbl
    ensures Ready(fp, others) && fp.cltbl == null && a == Done
    ensures FlatOf(fp) == old(FlatOf(fp)).(link := NoMap)
  {
    ReadyMeans(fp, others);
    ReadyCan(fp, others);
    hide *;
    ElsewhereRefl(fp.fs.geo, fp.chain, fp.fs.logical);
    FlatParts(fp);
    ghost var x, g, fat, ch, first, l := FlatOf(fp), fp.fs.geo, fp.fs.fat, fp.chain, fp.sclust, fp.fs.logical;
    Detach(fp);
    NoMapUsable(fp);
    RelinkedFlat(fp, others, g, fat, ch, first, l);
    FlatParts(fp);
    a := Done;
  }

  /** How a request for a link map ends: what it answers, and whether the table is kept. */
  ghost predicate MapDone(fat: seq<nat>, ch: seq<nat>, size: nat, dead: bool, res: FResult, need: nat, linked: bool) {
    if dead || MarkRunsOn(fat, ch) then res != FrOk && (!dead ==> res == FrIntErr) && !linked
    else
      && need == 2 + 2 * Runs(ch) && res == (if need <= size then FrOk else FrNotEnoughCore)
      && (linked <==> res == FrOk)
  }

  /** A link map asked for: the table is kept when f_lseek filled it, else taken off again. */
  method MakeMap(fp: Fil, size: nat) returns (res: FResult, need: nat)
    requires fp.Sound() && fp.Open() && size > 0
    modifies fp.fs`disk, fp.fs`logical, fp.fs`fat, fp.fs`wflag, fp.fs`winsect, fp.fs`lastClust, fp.fs`freeClust
    modifies fp.fs`fsiDirty, fp.fs.win, fp`chain, fp`sclust, fp`clust, fp`fptr, fp`dirty, fp`dsect, fp`fsize, fp`written
    modifies fp`contents, fp.buf
    modifies fp`err, fp`mapOk, fp`mapOf, fp`cltbl
    ensures fp.Sound() && (fp.cltbl == null || fresh(fp.cltbl)) && |fp.fs.disk| == |old(fp.fs.logical)|
    ensures MapDone(fp.fs.fat, fp.chain, size, old(fp.err) != FrOk, res, need, fp.cltbl != null)
    ensures fp.err == if old(fp.err) != FrOk then old(fp.err) else if res == FrIntErr then FrIntErr else FrOk
    ensures fp.cltbl != null ==> fp.mapOk && fp.mapOf == fp.chain
    ensures fp.fs.geo == old(fp.fs.geo) && fp.dirSect == old(fp.dirSect) && fp.dirOffset == old(fp.dirOffset)
    ensures fp.fs.fat == old(fp.fs.fat) && fp.chain == old(fp.chain) && fp.contents == old(fp.contents)
            && fp.fptr == old(fp.fptr) && fp.written == old(fp.written)
    ensures Elsewhere(fp.fs.geo, fp.chain, old(fp.fs.logical), fp.fs.logical)
    ensures old(FreeExact(fp.fs)) ==> FreeExact(fp.fs)
  {
    hide Fil.Sound, Fil.Open, Fil.MapUsable, FreeExact, MarkRunsOn, Runs, Grown, LongEnough, MapsChain, Moved;
    DriveSize(fp);
    ElsewhereRefl(fp.fs.geo, fp.chain, fp.fs.logical);
    Attach(fp, size);
    SoundOpen(fp);
    ghost var err, fat, ch, logical, c, at := fp.err, fp.fs.fat, fp.chain, fp.fs.logical, fp.contents, fp.fptr;
    res := FSeek(fp, CREATE_LINKMAP);
    DriveSize(fp);
    need := fp.cltbl[0];
    if res != FrOk {
      Detach(fp);
    }
  }

  method DoLinkMap(fp: Fil, size: nat, ghost others: set<seq<nat>>) returns (a: Answer)
    requires Ready(fp, others) && size > 0
    modifies fp.fs`disk, fp.fs`logical, fp.fs`fat, fp.fs`wflag, fp.fs`winsect, fp.fs`lastClust, fp.fs`freeClust
    modifies fp.fs`fsiDirty, fp.fs.win, fp`chain, fp`sclust, fp`clust, fp`fptr, fp`dirty, fp`dsect, fp`fsize, fp`written
    modifies fp`contents, fp.buf
    modifies fp`err, fp`mapOk, fp`mapOf, fp`cltbl
    ensures Ready(fp, others) && (fp.cltbl == null || fresh(fp.cltbl))
    ensures FlatStep(old(FlatOf(fp)), LinkMapOp(size), a, FlatOf(fp), Unit(fp))
    ensures OthersKept(fp.fs.geo, others, old(fp.fs.logical), fp.fs.logical, fp.dirSect, fp.dirOffset)
    ensures old(FreeExact(fp.fs)) ==> FreeExact(fp.fs)
  {
    ReadyMeans(fp, others);
    ReadyCan(fp, others);
    hide *;
    FlatParts(fp);
    ghost var x, g, fat, ch, first, l, err := FlatOf(fp), fp.fs.geo, fp.fs.fat, fp.chain, fp.sclust, fp.fs.logical,
      fp.err;
    var res, need := MakeMap(fp, size);
    MapFitsMeans(fp);
    RelinkedFlat(fp, others, g, fat, ch, first, l);
    LinkMapFlat(fp, x, size, err, res, need);
    a := if res == FrOk then Done else if fp.err != FrOk then Refused else TooSmall(need);
  }

  lemma LinkMapFlat(fp: Fil, x: Flat, size: nat, err: FResult, res: FResult, need: nat)
    requires |fp.fs.fat| >= 2 && fp.fs.geo.csize > 0
    requires x.bytes == fp.contents && x.cursor == fp.fptr && (x.dead <==> err != FrOk)
    requires x.room == ClusterStart(fp.fs.geo, |fp.chain|) && x.free == ClusterStart(fp.fs.geo, FreeCount(fp.fs.fat))
    requires x.runs == Runs(fp.chain) && x.runsOn == MarkRunsOn(fp.fs.fat, fp.chain)
    requires x.widest == IsEndMark(|fp.fs.fat|) && x.written == fp.written
    requires MapDone(fp.fs.fat, fp.chain, size, err != FrOk, res, need, fp.cltbl != null)
    requires fp.err == if err != FrOk then err else if res == FrIntErr then FrIntErr else FrOk
    requires fp.cltbl != null ==> fp.mapOf == fp.chain
    ensures FlatStep(x, LinkMapOp(size), if res == FrOk then Done else if fp.err != FrOk then Refused
            else TooSmall(need), FlatOf(fp), Unit(fp))
  {
    UnitPositive(fp.fs.geo);
    hide ClusterStart, FreeCount, Runs, MarkRunsOn, IsEndMark;
  }

  /** What f_truncate did to a file without a link map. */
  ghost predicate Shortened(fp: Fil, fat: seq<nat>, ch: seq<nat>, l: seq<Sector>, c: seq<byte>, at: nat, w: bool)
    reads fp, fp.fs
  {
    && |fp.fs.disk| == |l| && fp.err == FrOk && fp.cltbl == null && fp.fs.geo.csize > 0
    && fp.written == (w || at < |c|) && fp.fptr == at <= |c| && fp.contents == c[..at] && (ch == [] || IsChain(fat, ch))
    && (if at < |c| then
          && ClustersFor(fp.fs.geo, at) <= |ch| && fp.chain == ch[..ClustersFor(fp.fs.geo, at)]
          && fp.fs.fat == Truncated(fat, ch, |fp.chain|, EndMark(fp.fs.geo.fsType))
        else fp.chain == ch && fp.fs.fat == fat)
    && Elsewhere(fp.fs.geo, ch, l, fp.fs.logical)
  }

  method TruncateLive(fp: Fil)
    requires fp.Sound() && fp.Open() && fp.err == FrOk && fp.canWrite && fp.cltbl == null
    modifies fp.fs`disk, fp.fs`logical, fp.fs`fat, fp.fs`wflag, fp.fs`winsect, fp.fs`freeClust, fp.fs`fsiDirty
    modifies fp.fs.win
    modifies fp`fsize, fp`written, fp`sclust, fp`dirty, fp`err, fp`chain, fp`contents, fp`mapOk
    ensures fp.Sound() && fp.cltbl == null
    ensures fp.fs.geo == old(fp.fs.geo) && fp.dirSect == old(fp.dirSect) && fp.dirOffset == old(fp.dirOffset)
    ensures Shortened(fp, old(fp.fs.fat), old(fp.chain), old(fp.fs.logical), old(fp.contents), old(fp.fptr),
                      old(fp.written))
    ensures old(FreeExact(fp.fs)) ==> FreeExact(fp.fs)
  {
    hide Fil.Open, Fil.Sound, FreeExact, IsChain, Truncated, ClustersFor;
    DriveSize(fp);
    OpenSized(fp);
    OpenChain(fp);
    assert fp.contents[..|fp.contents|] == fp.contents;
    var res := FTruncate(fp);
    DriveSize(fp);
    OpenSound(fp);
  }

  lemma OpenChain(fp: Fil)
    requires fp.Open() && fp.err == FrOk
    ensures fp.chain == [] || IsChain(fp.fs.fat, fp.chain)
  {
    OpenMeans(fp);
    hide Fil.Stable, IsChain;
  }

  lemma AfterTruncate(fp: Fil, others: set<seq<nat>>, fat: seq<nat>, ch: seq<nat>, first: nat, l: seq<Sector>,
                      x: Flat, of: seq<nat>)
    requires fp.Sound() && fp.canRead && fp.canWrite && |fat| == fp.fs.geo.nFatent
    requires Known(fp.fs.geo, fat, others, ch, first, l, x, fp.dirSect, fp.dirOffset, false, of)
    requires FatGeo(fp.fs.geo, |l|) && DataGeo(fp.fs.geo, |l|)
    requires Shortened(fp, fat, ch, l, x.bytes, x.cursor, x.written)
    ensures Ready(fp, others) && FlatStep(x, TruncateOp, Done, FlatOf(fp), Unit(fp))
    ensures OthersKept(fp.fs.geo, others, l, fp.fs.logical, fp.dirSect, fp.dirOffset)
  {
    hide *;
    EndMarkBehind(fp.fs.geo, |l|);
    ShortenedMeans(fp, fat, ch, l, x.bytes, x.cursor, x.written);
    NoMapUsable(fp);
    KnownMeans(fp.fs.geo, fat, others, ch, first, l, x, fp.dirSect, fp.dirOffset, of);
    ElsewhereOthers(fp.fs.geo, fat, others, ch, l, fp.fs.logical, fp.dirSect, fp.dirOffset);
    if x.cursor < |x.bytes| {
      TruncatedVolume(fp.fs.geo, |l|, fat, others, ch, |fp.chain|, first, EndMark(fp.fs.geo.fsType), fp.dirSect,
        fp.dirOffset);
    }
    SoundSized(fp);
    ReadyIs(fp, others);
    ReadyMeans(fp, others);
    FlatParts(fp);
    UnitIs(fp);
    ShortenedRuns(fp, fat, ch, x, FlatOf(fp));
    TruncateFlat(fp.fs.geo, |ch|, |fp.chain|, FreeCount(fat), FreeCount(fp.fs.fat), x, FlatOf(fp));
  }

  lemma ShortenedMeans(fp: Fil, fat: seq<nat>, ch: seq<nat>, l: seq<Sector>, c: seq<byte>, at: nat, w: bool)
    requires Shortened(fp, fat, ch, l, c, at, w)
    ensures |fp.fs.disk| == |l| && fp.err == FrOk && fp.cltbl == null && fp.fs.geo.csize > 0
    ensures fp.written == (w || at < |c|) && fp.fptr == at <= |c| && fp.contents == c[..at]
    ensures (ch == [] || IsChain(fat, ch)) && |fp.chain| <= |ch| && fp.chain == ch[..|fp.chain|]
    ensures at < |c| ==> fp.fs.fat == Truncated(fat, ch, |fp.chain|, EndMark(fp.fs.geo.fsType))
    ensures at == |c| ==> fp.chain == ch && fp.fs.fat == fat
    ensures |fp.chain| == if at < |c| then ClustersFor(fp.fs.geo, at) else |ch|
    ensures Elsewhere(fp.fs.geo, ch, l, fp.fs.logical)
  {
    hide IsChain, Truncated, ClustersFor, Elsewhere;
  }

  lemma KnownMeans(g: Geo, fat: seq<nat>, others: set<seq<nat>>, ch: seq<nat>, first: nat, l: seq<Sector>, x: Flat,
                   dirSect: nat, o: nat, of: seq<nat>)
    requires Known(g, fat, others, ch, first, l, x, dirSect, o, false, of)
    ensures g.csize > 0 && |fat| >= 2 && OnVolume(g, |l|, fat, others, ch, dirSect, o) && ChainOk(fat, ch, first)
    ensures FreeCount(fat) + |ch| + AllocatorRuns.OnChains(others) == |fat| - 2
    ensures x.room == ClusterStart(g, |ch|) && x.free == ClusterStart(g, FreeCount(fat)) && !x.dead
    ensures x.cursor <= |x.bytes| <= x.room && x.link == NoMap
    ensures x.runs == Runs(ch) && x.runsOn == MarkRunsOn(fat, ch) && x.widest == IsEndMark(|fat|)
  {
    hide OnVolume, ChainOk, FreeCount, AllocatorRuns.OnChains, ClusterStart, Runs, MarkRunsOn, IsEndMark;
  }

  lemma ReadyIs(fp: Fil, others: set<seq<nat>>)
    requires fp.Sound() && fp.canRead && fp.canWrite && MapFits(fp)
    requires OnVolume(fp.fs.geo, |fp.fs.disk|, fp.fs.fat, others, fp.chain, fp.dirSect, fp.dirOffset)
    ensures Ready(fp, others)
  {
    hide Fil.Stable, OnVolume, MapFits;
  }

  lemma ShortenedRuns(fp: Fil, fat: seq<nat>, ch: seq<nat>, x: Flat, y: Flat)
    requires (ch == [] || IsChain(fat, ch)) && |fp.chain| <= |ch| && fp.chain == ch[..|fp.chain|]
    requires EndMark(fp.fs.geo.fsType) >= |fat|
    requires fp.fs.fat == Truncated(fat, ch, |fp.chain|, EndMark(fp.fs.geo.fsType))
             || (fp.fs.fat == fat && fp.chain == ch)
    requires x.runs == Runs(ch) && x.runsOn == MarkRunsOn(fat, ch) && x.widest == IsEndMark(|fat|)
    requires y.runs == Runs(fp.chain) && y.runsOn == MarkRunsOn(fp.fs.fat, fp.chain)
    requires y.widest == IsEndMark(|fp.fs.fat|)
    ensures Rerun(x, y, |ch|, |fp.chain|)
  {
    hide Runs, MarkRunsOn, IsEndMark, IsChain, Truncated;
    if fp.fs.fat == fat && fp.chain == ch {
    } else {
      TruncatedRuns(fat, ch, |fp.chain|, EndMark(fp.fs.geo.fsType), x, y);
    }
  }

  lemma SoundSized(fp: Fil)
    requires fp.Sound()
    ensures |fp.fs.fat| >= 3 && fp.fs.geo.csize > 0
  {
  }

  method DoTruncate(fp: Fil, ghost others: set<seq<nat>>) returns (a: Answer)
    requires Ready(fp, others) && fp.err == FrOk && fp.cltbl == null
    modifies fp.fs`disk, fp.fs`logical, fp.fs`fat, fp.fs`wflag, fp.fs`winsect, fp.fs`freeClust, fp.fs`fsiDirty
    modifies fp.fs.win
    modifies fp`fsize, fp`written, fp`sclust, fp`dirty, fp`err, fp`chain, fp`contents, fp`mapOk
    ensures Ready(fp, others)
    ensures FlatStep(old(FlatOf(fp)), TruncateOp, a, FlatOf(fp), Unit(fp))
    ensures OthersKept(fp.fs.geo, others, old(fp.fs.logical), fp.fs.logical, fp.dirSect, fp.dirOffset)
    ensures old(FreeExact(fp.fs)) ==> FreeExact(fp.fs)
  {
    ReadyMeans(fp, others);
    ReadyKnown(fp, others);
    DriveSize(fp);
    hide *;
    ghost var fat, ch, first, l, x, of := fp.fs.fat, fp.chain, fp.sclust, fp.fs.logical, FlatOf(fp), fp.mapOf;
    TruncateLive(fp);
    AfterTruncate(fp, others, fat, ch, first, l, x, of);
    a := Done;
  }

  /** What drive `d` alone shows at a directory entry: `bytes`, on the chain that starts where the entry says, and as
      long as it says. */
  ghost predicate Shows(g: Geo, d: seq<Sector>, dirSect: nat, o: nat, bytes: seq<byte>) {
    && FatGeo(g, |d|) && dirSect < |d| && o + 32 <= 512 && EntryFileSize(d[dirSect], o) == |bytes|
    && exists ch: seq<nat> :: ChainOk(TableOf(g, d), ch, LdClust(g.fsType, d[dirSect], o)) && Holds(g, ch, d, bytes)
  }

  lemma DurableShows(fp: Fil, others: set<seq<nat>>)
    requires fp.Sound() && FatGeo(fp.fs.geo, |fp.fs.disk|) && fp.dirOffset + 32 <= 512 && fp.dirSect < |fp.fs.disk|
    requires Durable(fp)
    ensures Shows(fp.fs.geo, fp.fs.disk, fp.dirSect, fp.dirOffset, fp.contents)
  {
    StartSmall(fp);
    hide FatGeo, DataGeo, Avail, BufferOk, Holds, CursorAt, TableOf, EntryFileSize, LdClust, IsChain;
  }

  method DoSync(fp: Fil, tm: dword, ghost others: set<seq<nat>>) returns (a: Answer)
    requires Ready(fp, others)
    modifies fp.fs`disk, fp.fs`logical, fp.fs`wflag, fp.fs`winsect, fp.fs`fsiDirty, fp.fs.win, fp`dirty, fp`written
    ensures Ready(fp, others)
    ensures FlatStep(old(FlatOf(fp)), SyncOp(tm), a, FlatOf(fp), Unit(fp))
    ensures OthersKept(fp.fs.geo, others, old(fp.fs.logical), fp.fs.logical, fp.dirSect, fp.dirOffset)
    ensures old(fp.written) ==> Shows(fp.fs.geo, fp.fs.disk, fp.dirSect, fp.dirOffset, old(fp.contents))
  {
    hide Fil.Stable, FatGeo, DataGeo, ChainOk, ChainOn, OthersKept, EntryOnly, Avail, Forest, FreeCount, Durable;
    hide ClusterStart, Runs, MarkRunsOn, IsEndMark;
    ReadyMeans(fp, others);
    ghost var l := fp.fs.logical;
    ghost var w := fp.written;
    var res := FSync(fp, tm);
    a := Done;
    if w {
      DurableShows(fp, others);
    }
    ElsewhereOthers(fp.fs.geo, fp.fs.fat, others, fp.chain, l, fp.fs.logical, fp.dirSect, fp.dirOffset);
  }

  /** An aborted file refuses these operations. */
  method Refuse(fp: Fil, op: FileOp)
    requires fp.Sound() && fp.Open() && fp.err != FrOk && Allowed(op) && !(op.SeekOp? && AsksForMap(fp.cltbl, op.ofs))
    modifies fp.fs`disk, fp.fs`logical, fp.fs`fat, fp.fs`wflag, fp.fs`winsect, fp.fs`lastClust, fp.fs`freeClust
    modifies fp.fs`fsiDirty, fp.fs.win, fp`chain, fp`sclust, fp`clust, fp`dirty, fp`dsect, fp`growing, fp`contents
    modifies fp`fptr, fp.buf
    modifies fp`fsize, fp`written, fp`err, fp`mapOk, fp`mapOf, fp.cltbl
    ensures fp.Sound() && unchanged(fp, fp.buf, fp.fs, fp.fs.win)
  {
    hide Fil.Open, Fil.Sound;
    if op.ReadOp? {
      var into := new byte[op.n](_ => 0);
      var res, br := FRead(fp, into, op.n);
    } else if op.WriteOp? {
      var res, bw := FWrite(fp, op.data);
    } else if op.SeekOp? {
      var res := FSeek(fp, op.ofs);
    } else if op.TruncateOp? {
      var res := FTruncate(fp);
    }
  }

  method DoRefused(fp: Fil, op: FileOp, ghost others: set<seq<nat>>) returns (a: Answer)
    requires Ready(fp, others) && fp.err != FrOk && Allowed(op) && !(op.SeekOp? && AsksForMap(fp.cltbl, op.ofs))
    requires op.ReadOp? || op.WriteOp? || op.SeekOp? || (op.TruncateOp? && fp.cltbl == null)
    modifies fp.fs`disk, fp.fs`logical, fp.fs`fat, fp.fs`wflag, fp.fs`winsect, fp.fs`lastClust, fp.fs`freeClust
    modifies fp.fs`fsiDirty, fp.fs.win, fp`chain, fp`sclust, fp`clust, fp`dirty, fp`dsect, fp`growing, fp`contents
    modifies fp`fptr, fp.buf
    modifies fp`fsize, fp`written, fp`err, fp`mapOk, fp`mapOf, fp.cltbl
    ensures Ready(fp, others)
    ensures FlatStep(old(FlatOf(fp)), op, a, FlatOf(fp), Unit(fp))
    ensures OthersKept(fp.fs.geo, others, old(fp.fs.logical), fp.fs.logical, fp.dirSect, fp.dirOffset)
    ensures old(FreeExact(fp.fs)) ==> FreeExact(fp.fs)
  {
    ReadyMeans(fp, others);
    ReadyCan(fp, others);
    hide *;
    ElsewhereRefl(fp.fs.geo, fp.chain, fp.fs.logical);
    ghost var x, g, fat, ch, first, l := FlatOf(fp), fp.fs.geo, fp.fs.fat, fp.chain, fp.sclust, fp.fs.logical;
    UnitIs(fp);
    UnitPositive(g);
    FlatParts(fp);
    StillDead(x, op, ClusterStart(g, 1));
    Refuse(fp, op);
    RelinkedFlat(fp, others, g, fat, ch, first, l);
    a := Refused;
  }

  lemma StillDead(x: Flat, op: FileOp, unit: nat)
    requires x.dead && unit > 0
    requires op.ReadOp? || op.WriteOp? || op.SeekOp? || op.TruncateOp?
    requires (op.SeekOp? && op.ofs == CREATE_LINKMAP) || op.TruncateOp? ==> x.link.NoMap?
    ensures FlatStep(x, op, Refused, x, unit)
  {
  }

  /** The application goes back to normal seek before these operations. */
  lemma DetachedFirst(x: Flat, op: FileOp, a: Answer, y: Flat, unit: nat)
    requires unit > 0 && (op.TruncateOp? || (op.SeekOp? && op.ofs == CREATE_LINKMAP))
    requires FlatStep(x.(link := NoMap), op, a, y, unit)
    ensures FlatStep(x, op, a, y, unit)
  {
    hide RoundedUp, Patched;
  }

  method PerformSeek(fp: Fil, ofs: nat, ghost others: set<seq<nat>>) returns (a: Answer)
    requires Ready(fp, others) && ofs < 0x1_0000_0000
    modifies fp.fs`disk, fp.fs`logical, fp.fs`fat, fp.fs`wflag, fp.fs`winsect, fp.fs`lastClust, fp.fs`freeClust
    modifies fp.fs`fsiDirty, fp.fs.win, fp`chain, fp`sclust, fp`clust, fp`fptr, fp`dirty, fp`dsect, fp`growing
    modifies fp`contents, fp.buf
    modifies fp`fsize, fp`written, fp`err, fp`mapOk, fp`mapOf, fp`cltbl, fp.cltbl
    ensures Ready(fp, others) && (fp.cltbl == null || fp.cltbl == old(fp.cltbl))
    ensures FlatStep(old(FlatOf(fp)), SeekOp(ofs), a, FlatOf(fp), Unit(fp))
    ensures OthersKept(fp.fs.geo, others, old(fp.fs.logical), fp.fs.logical, fp.dirSect, fp.dirOffset)
    ensures old(FreeExact(fp.fs)) ==> FreeExact(fp.fs)
  {
    hide Ready, FlatStep, OthersKept, FlatOf, Unit, FreeExact;
    ghost var x := FlatOf(fp);
    var asks := AsksForMap(fp.cltbl, ofs);
    if asks {
      a := DoDetach(fp, others);
    }
    if fp.err != FrOk {
      a := DoRefused(fp, SeekOp(ofs), others);
    } else {
      a := DoSeek(fp, ofs, others);
    }
    if asks {
      UnitOf(fp);
      DetachedFirst(x, SeekOp(ofs), a, FlatOf(fp), Unit(fp));
    }
  }

  lemma UnitOf(fp: Fil)
    requires fp.fs.geo.csize > 0
    ensures Unit(fp) > 0
  {
  }

  method PerformTruncate(fp: Fil, ghost others: set<seq<nat>>) returns (a: Answer)
    requires Ready(fp, others)
    modifies fp.fs`disk, fp.fs`logical, fp.fs`fat, fp.fs`wflag, fp.fs`winsect, fp.fs`lastClust, fp.fs`freeClust
    modifies fp.fs`fsiDirty, fp.fs.win, fp`chain, fp`sclust, fp`clust, fp`fptr, fp`dirty, fp`dsect, fp`growing
    modifies fp`contents, fp.buf
    modifies fp`fsize, fp`written, fp`err, fp`mapOk, fp`mapOf, fp`cltbl
    ensures Ready(fp, others) && fp.cltbl == null
    ensures FlatStep(old(FlatOf(fp)), TruncateOp, a, FlatOf(fp), Unit(fp))
    ensures OthersKept(fp.fs.geo, others, old(fp.fs.logical), fp.fs.logical, fp.dirSect, fp.dirOffset)
    ensures old(FreeExact(fp.fs)) ==> FreeExact(fp.fs)
  {
    hide Ready, FlatStep, OthersKept, FlatOf, Unit, FreeExact;
    ghost var x := FlatOf(fp);
    a := DoDetach(fp, others);
    if fp.err != FrOk {
      a := DoRefused(fp, TruncateOp, others);
    } else {
      a := DoTruncate(fp, others);
    }
    UnitOf(fp);
    DetachedFirst(x, TruncateOp, a, FlatOf(fp), Unit(fp));
  }

  /** One operation. When something was written, the drive alone shows the file after a synchronisation. */
  method Perform(fp: Fil, op: FileOp, ghost others: set<seq<nat>>) returns (a: Answer)
    requires Ready(fp, others) && Allowed(op)
    modifies fp.fs`disk, fp.fs`logical, fp.fs`fat, fp.fs`wflag, fp.fs`winsect, fp.fs`lastClust, fp.fs`freeClust
    modifies fp.fs`fsiDirty, fp.fs.win, fp`chain, fp`sclust, fp`clust, fp`fptr, fp`dirty, fp`dsect, fp`growing
    modifies fp`contents, fp.buf
    modifies fp`fsize, fp`written, fp`err, fp`mapOk, fp`mapOf, fp`cltbl, fp.cltbl
    ensures Ready(fp, others) && (fp.cltbl == null || fp.cltbl == old(fp.cltbl) || fresh(fp.cltbl))
    ensures FlatStep(old(FlatOf(fp)), op, a, FlatOf(fp), Unit(fp))
    ensures OthersKept(fp.fs.geo, others, old(fp.fs.logical), fp.fs.logical, fp.dirSect, fp.dirOffset)
    ensures op.SyncOp? && old(FlatOf(fp)).written ==>
              Shows(fp.fs.geo, fp.fs.disk, fp.dirSect, fp.dirOffset, old(FlatOf(fp)).bytes)
    ensures old(FreeExact(fp.fs)) ==> FreeExact(fp.fs)
  {
    hide *;
    AllowedMeans(op);
    SoundSized(fp);
    FlatParts(fp);
    match op {
      case ReadOp(n) =>
        if fp.err != FrOk {
          a := DoRefused(fp, op, others);
        } else {
          a := DoRead(fp, n, others);
        }
      case WriteOp(data) =>
        if fp.err != FrOk {
          a := DoRefused(fp, op, others);
        } else {
          a := DoWrite(fp, data, others);
        }
      case SeekOp(ofs) =>
        a := PerformSeek(fp, ofs, others);
      case LinkMapOp(size) =>
        a := DoLinkMap(fp, size, others);
      case DetachOp =>
        a := PerformDetach(fp, others);
      case TruncateOp =>
        a := PerformTruncate(fp, others);
      case SyncOp(tm) =>
        a := DoSync(fp, tm, others);
    }
  }

  lemma AllowedMeans(op: FileOp)
    requires Allowed(op)
    ensures op.WriteOp? ==> |op.data| < 0x1_0000_0000
    ensures op.SeekOp? ==> op.ofs < 0x1_0000_0000
    ensures op.LinkMapOp? ==> op.size > 0
  {
  }

  method PerformDetach(fp: Fil, ghost others: set<seq<nat>>) returns (a: Answer)
    requires Ready(fp, others)
    modifies fp`cltbl
    ensures Ready(fp, others) && fp.cltbl == null
    ensures FlatStep(old(FlatOf(fp)), DetachOp, a, FlatOf(fp), Unit(fp))
    ensures OthersKept(fp.fs.geo, others, old(fp.fs.logical), fp.fs.logical, fp.dirSect, fp.dirOffset)
  {
    hide Ready, OthersKept, FlatOf, Unit;
    OthersKeptRefl(fp.fs.geo, others, fp.fs.logical, fp.dirSect, fp.dirOffset);
    UnitOf(fp);
    a := DoDetach(fp, others);
  }

  /** A run of the flat file: `trace` starts with one state and gains one by each operation. */
  ghost predicate FlatRun(trace: seq<Flat>, ops: seq<FileOp>, answers: seq<Answer>, unit: nat)
    requires unit > 0
    ensures FlatRun(trace, ops, answers, unit) ==> |trace| == |ops| + 1
    ensures |trace| == 1 && ops == [] && answers == [] ==> FlatRun(trace, ops, answers, unit)
  {
    && |trace| == |ops| + 1 && |answers| == |ops|
    && forall i | 0 <= i < |ops| :: FlatStep(trace[i], ops[i], answers[i], trace[i + 1], unit)
  }

  lemma FlatRunFrom(x: Flat, op: FileOp, a: Answer, trace: seq<Flat>, ops: seq<FileOp>, answers: seq<Answer>, unit: nat)
    requires unit > 0 && FlatRun(trace, ops, answers, unit) && FlatStep(x, op, a, trace[0], unit)
    ensures FlatRun([x] + trace, [op] + ops, [a] + answers, unit)
  {
    hide FlatStep;
    var t, o, r := [x] + trace, [op] + ops, [a] + answers;
    forall i | 0 <= i < |o| ensures FlatStep(t[i], o[i], r[i], t[i + 1], unit) {
      if i > 0 {
        assert t[i] == trace[i - 1] && t[i + 1] == trace[i] && o[i] == ops[i - 1] && r[i] == answers[i - 1];
      }
    }
  }

  /** No operation makes or loses room: what the file and the volume have together stays the same. */
  lemma StepConserves(x: Flat, op: FileOp, a: Answer, y: Flat, unit: nat)
    requires unit > 0 && FlatStep(x, op, a, y, unit)
    ensures y.room + y.free == x.room + x.free
  {
    hide RoundedUp, Patched, Reach;
  }

  /** Nor does a run of them. */
  lemma {:induction false} RunConserves(trace: seq<Flat>, ops: seq<FileOp>, answers: seq<Answer>, unit: nat, k: nat)
    requires unit > 0 && FlatRun(trace, ops, answers, unit) && k <= |ops|
    ensures trace[k].room + trace[k].free == trace[0].room + trace[0].free
    decreases k
  {
    hide FlatStep;
    if k > 0 {
      RunConserves(trace, ops, answers, unit, k - 1);
      StepConserves(trace[k - 1], ops[k - 1], answers[k - 1], trace[k], unit);
    }
  }

  /** After each synchronisation of a run that had something to write, the drive alone shows the bytes of the flat file;
      `drives` are the contents of the drive in between. */
  ghost predicate Synced(trace: seq<Flat>, drives: seq<seq<Sector>>, ops: seq<FileOp>, g: Geo, dirSect: nat, o: nat)
    ensures Synced(trace, drives, ops, g, dirSect, o) ==> |drives| == |trace| == |ops| + 1
    ensures |trace| == |drives| == 1 && ops == [] ==> Synced(trace, drives, ops, g, dirSect, o)
  {
    && |drives| == |trace| == |ops| + 1
    && forall i | 0 <= i < |ops| && ops[i].SyncOp? && trace[i].written ::
         Shows(g, drives[i + 1], dirSect, o, trace[i].bytes)
  }

  lemma SyncedFrom(x: Flat, d: seq<Sector>, op: FileOp, trace: seq<Flat>, drives: seq<seq<Sector>>, ops: seq<FileOp>,
                   g: Geo, dirSect: nat, o: nat)
    requires Synced(trace, drives, ops, g, dirSect, o)
    requires op.SyncOp? && x.written ==> Shows(g, drives[0], dirSect, o, x.bytes)
    ensures Synced([x] + trace, [d] + drives, [op] + ops, g, dirSect, o)
  {
    hide Shows;
    var t, e, p := [x] + trace, [d] + drives, [op] + ops;
    forall i | 0 <= i < |p| && p[i].SyncOp? && t[i].written ensures Shows(g, e[i + 1], dirSect, o, t[i].bytes) {
      if i > 0 {
        assert t[i] == trace[i - 1] && e[i + 1] == drives[i] && p[i] == ops[i - 1];
      }
    }
  }

  /** Any operations, in any order: there is a run of the flat file, from the file as it was to the file as it
      is, that gives the same answers; after a synchronisation the drive alone shows the bytes; the chains of the volume
      stay disjoint, other files keep their bytes, and an exact free cluster count stays exact. */
  method Run(fp: Fil, ops: seq<FileOp>, ghost others: set<seq<nat>>)
    returns (answers: seq<Answer>, ghost trace: seq<Flat>, ghost drives: seq<seq<Sector>>)
    requires Ready(fp, others) && forall i | 0 <= i < |ops| :: Allowed(ops[i])
    modifies fp.fs`disk, fp.fs`logical, fp.fs`fat, fp.fs`wflag, fp.fs`winsect, fp.fs`lastClust, fp.fs`freeClust
    modifies fp.fs`fsiDirty, fp.fs.win, fp`chain, fp`sclust, fp`clust, fp`fptr, fp`dirty, fp`dsect, fp`growing
    modifies fp`contents, fp.buf
    modifies fp`fsize, fp`written, fp`err, fp`mapOk, fp`mapOf, fp`cltbl, fp.cltbl
    decreases |ops|
    ensures Ready(fp, others)
    ensures Unit(fp) == old(Unit(fp)) > 0
    ensures Synced(trace, drives, ops, fp.fs.geo, fp.dirSect, fp.dirOffset)
    ensures drives[0] == old(fp.fs.disk) && drives[|ops|] == fp.fs.disk
    ensures FlatRun(trace, ops, answers, Unit(fp)) && trace[0] == old(FlatOf(fp)) && trace[|ops|] == FlatOf(fp)
    ensures OthersKept(fp.fs.geo, others, old(fp.fs.logical), fp.fs.logical, fp.dirSect, fp.dirOffset)
    ensures old(FreeExact(fp.fs)) ==> FreeExact(fp.fs)
  {
    hide *;
    UnitOf(fp);
    ghost var x, d, g := FlatOf(fp), fp.fs.disk, fp.fs.geo;
    if ops == [] {
      OthersKeptRefl(g, others, fp.fs.logical, fp.dirSect, fp.dirOffset);
      answers, trace, drives := [], [x], [d];
    } else {
      var a := Perform(fp, ops[0], others);
      ghost var l := fp.fs.logical;
      answers, trace, drives := Run(fp, ops[1..], others);
      OthersKeptTrans(g, others, old(fp.fs.logical), l, fp.fs.logical, fp.dirSect, fp.dirOffset);
      FlatRunFrom(x, ops[0], a, trace, ops[1..], answers, Unit(fp));
      SyncedFrom(x, d, ops[0], trace, drives, ops[1..], g, fp.dirSect, fp.dirOffset);
      assert [ops[0]] + ops[1..] == ops;
      answers, trace, drives := [a] + answers, [x] + trace, [d] + drives;
    }
  }
}
