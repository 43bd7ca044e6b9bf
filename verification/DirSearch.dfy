/** dir_find, dir_alloc and dir_register over a directory table on the drive. */
module DirSearch {
  import opened Bytes
  import opened Geometry
  import opened Volume
  import opened Chains
  import opened ClusterAlloc
  import opened DataArea
  import opened FileObject
  import opened DirTable
  import opened Lfn
  import opened DirScan
  import opened NumNames
  import ShortNames

  // ----- the entries of a table -----

  /** Number of entries dir_next comes to: an index has 16 bits. */
  function EntryCount(g: Geo, ch: seq<nat>): nat {
    if Capacity(g, ch) < 0x1_0000 then Capacity(g, ch) else 0x1_0000
  }

  /** Entry `i` of a table on drive `l`. */
  function EntryOf(l: seq<Sector>, g: Geo, ch: seq<nat>, i: nat): (e: seq<byte>)
    ensures |e| == 32
  {
    var s := TableSector(g, ch, i / 16);
    if s < |l| then l[s][i % 16 * 32..i % 16 * 32 + 32] else Zeros32()
  }

  function Entries(l: seq<Sector>, g: Geo, ch: seq<nat>): (es: seq<seq<byte>>)
    ensures Table(es) && |es| == EntryCount(g, ch)
  {
    seq(EntryCount(g, ch), i requires 0 <= i < EntryCount(g, ch) => EntryOf(l, g, ch, i))
  }

  ghost function EntriesOn(dp: Dir): (es: seq<seq<byte>>)
    reads dp`chain, dp.fs`logical, dp.fs`geo
    ensures Table(es) && |es| == EntryCount(dp.fs.geo, dp.chain)
  {
    Entries(dp.fs.logical, dp.fs.geo, dp.chain)
  }

  lemma TableChained(g: Geo, fat: seq<nat>, sclust: nat, ch: seq<nat>)
    requires |fat| == g.nFatent && TableAt(g, fat, sclust, ch) && g.csize > 0
    ensures ChainOn(g, ch)
  {
    if ch != [] {
      forall i | 0 <= i < |ch| ensures 2 <= ch[i] < g.nFatent {
        LinkInside(fat, ch, i);
      }
    }
  }

  /** The sectors of a table are on the drive, outside the FAT copies. */
  lemma TableInside(g: Geo, total: nat, fat: seq<nat>, sclust: nat, ch: seq<nat>, i: nat)
    requires FatGeo(g, total) && DataGeo(g, total) && |fat| == g.nFatent && TableAt(g, fat, sclust, ch)
             && i < Capacity(g, ch)
    ensures FatEnd(g) <= TableSector(g, ch, i / 16) < total && OutsideFats(g, TableSector(g, ch, i / 16))
    ensures !InSecondFat(g, TableSector(g, ch, i / 16)) && !InFirstFat(g, TableSector(g, ch, i / 16))
  {
    if ch != [] {
      SectorsPositive(g, total);
      ChainedSector(g, fat, sclust, ch, i);
      hide DataGeo, SectorOf, IsChain, TableSector, Capacity, TableAt;
      SectorOfRange(g, total, ch, i / 16);
    } else {
      StaticInside(g, total, i);
    }
  }

  lemma StaticInside(g: Geo, total: nat, i: nat)
    requires FatGeo(g, total) && DataGeo(g, total) && i < g.nRootdir
    ensures FatEnd(g) <= g.dirbase + i / 16 < total
  {
    hide PowerOfTwoByte;
    assert g.fsType != Fat32 && i / 16 < g.nRootdir / 16;
    MulMonotone(0, g.nFatent - 2, g.csize);
  }

  /** The sectors of a chained table are those of its chain. */
  lemma ChainedSector(g: Geo, fat: seq<nat>, sclust: nat, ch: seq<nat>, i: nat)
    requires g.csize > 0 && |fat| == g.nFatent && TableAt(g, fat, sclust, ch) && ch != [] && i < Capacity(g, ch)
    ensures ChainOn(g, ch) && i / 16 / g.csize < |ch| && ch[i / 16 / g.csize] >= 2
    ensures TableSector(g, ch, i / 16) == SectorOf(g, ch, i / 16)
  {
    hide SectorOf;
    TableChained(g, fat, sclust, ch);
    InCapacity(i, g.csize, |ch|);
  }

  /** Different sectors of a table are different sectors of the drive. */
  lemma TableSectorsApart(g: Geo, total: nat, fat: seq<nat>, sclust: nat, ch: seq<nat>, i: nat, j: nat)
    requires FatGeo(g, total) && DataGeo(g, total) && |fat| == g.nFatent && TableAt(g, fat, sclust, ch)
             && i < Capacity(g, ch) && j < Capacity(g, ch)
    ensures TableSector(g, ch, i / 16) == TableSector(g, ch, j / 16) ==> i / 16 == j / 16
  {
    if ch != [] {
      SectorsPositive(g, total);
      ChainedSector(g, fat, sclust, ch, i);
      ChainedSector(g, fat, sclust, ch, j);
      hide *;
      if SectorOf(g, ch, i / 16) == SectorOf(g, ch, j / 16) {
        SectorOfInjective(g, total, ch, i / 16, j / 16);
      }
    }
  }

  /** A drive that is the same outside the FAT copies shows the same entries. */
  lemma EntriesKept(g: Geo, fat: seq<nat>, sclust: nat, ch: seq<nat>, l: seq<Sector>, l': seq<Sector>)
    requires FatGeo(g, |l|) && DataGeo(g, |l|) && |fat| == g.nFatent && TableAt(g, fat, sclust, ch)
             && SameOutsideFats(g, l, l')
    ensures Entries(l', g, ch) == Entries(l, g, ch)
  {
    hide FatGeo, DataGeo, TableAt, TableSector;
    forall i | 0 <= i < EntryCount(g, ch) ensures EntryOf(l', g, ch, i) == EntryOf(l, g, ch, i) {
      TableInside(g, |l|, fat, sclust, ch, i);
    }
  }

  /** A sector of the table rewritten in the bytes of one entry changes that entry and no other. */
  lemma EntryStored(g: Geo, fat: seq<nat>, sclust: nat, ch: seq<nat>, l: seq<Sector>, i: nat, w: Sector)
    requires FatGeo(g, |l|) && DataGeo(g, |l|) && |fat| == g.nFatent && TableAt(g, fat, sclust, ch)
             && i < EntryCount(g, ch)
    requires var s := TableSector(g, ch, i / 16);
             s < |l| && forall b | 0 <= b < 512 && !(i % 16 * 32 <= b < i % 16 * 32 + 32) :: w[b] == l[s][b]
    ensures Entries(l[TableSector(g, ch, i / 16) := w], g, ch) ==
            Entries(l, g, ch)[i := w[i % 16 * 32..i % 16 * 32 + 32]]
  {
    hide FatGeo, DataGeo, TableAt, TableSector;
    var s := TableSector(g, ch, i / 16);
    var l' := l[s := w];
    forall j: nat | j < EntryCount(g, ch) && j != i ensures EntryOf(l', g, ch, j) == EntryOf(l, g, ch, j) {
      TableSectorsApart(g, |l|, fat, sclust, ch, i, j);
      if TableSector(g, ch, j / 16) == s {
        assert j % 16 != i % 16;
        assert l'[s][j % 16 * 32..j % 16 * 32 + 32] == l[s][j % 16 * 32..j % 16 * 32 + 32];
      }
    }
  }

  // ----- dir_find -----

  /** sum_sfn, on an entry or on an 8.3 form. */
  method Sum(dir: seq<byte>) returns (sum: byte)
    requires |dir| >= 11
    ensures sum == SumSfn(dir)
  {
    sum := 0;
    var i: nat := 0;
    while i < 11
      invariant i <= 11 && SumSfn(dir) == SumFrom(dir, i, sum)
    {
      sum := (sum as int / 2 + sum as int % 2 * 0x80 + dir[i] as int) % 0x100;
      i := i + 1;
    }
  }

  /** The body of the loop of dir_find on the entry at `o` of the window. */
  method JudgeEntry(win: array<byte>, o: nat, w: Wanted, up: wchar -> wchar, s: Seek, i: nat) returns (v: Verdict)
    requires Proper(w) && o + 32 <= win.Length
    ensures v == Judge(win[o..o + 32], w, up, s, i)
  {
    hide Matches, SumSfn;
    var dir := win[o..o + 32];
    var c: nat, a := dir[0], dir[11] as int % 0x40;
    if c == 0 {
      return EndMark;
    }
    v := Next(s);
    if c == DDE || (a / 8 % 2 == 1 && a != AM_LFN) {
      v := Next(s.(ord := NO_ORD));
    } else if a == AM_LFN {
      if w.withLfn {
        var ord, sum, idx := s.ord, s.sum, s.idx;
        if c / LLE % 2 == 1 {
          sum := dir[13];
          c := c - LLE;
          ord := c;
          idx := i;
        }
        var same := false;
        if c == ord && sum == dir[13] {
          same := CmpLfn(w.lfn, win, o, up);
        }
        v := Next(Seek(if same then (ord + 0xFF) % 0x100 else NO_ORD, sum, idx));
      }
    } else {
      var sum := Sum(dir);
      if s.ord == 0 && s.sum == sum {
        return Hit(s.idx);
      }
      v := Next(Seek(NO_ORD, s.sum, NO_LFN));
      if !w.loss && dir[..11] == w.sfn {
        return Hit(NO_LFN);
      }
    }
  }

  /** The window moved to the current entry shows it. */
  method ShowEntry(dp: Dir, ghost i: nat)
    requires Usable(dp) && dp.AtEntry(i) && i < EntryCount(dp.fs.geo, dp.chain)
    modifies dp.fs`disk, dp.fs`wflag, dp.fs`winsect, dp.fs.win
    ensures Usable(dp) && dp.AtEntry(i) && dp.dir + 32 <= 512 && dp.fs.winsect == dp.sect
            && OutsideFats(dp.fs.geo, dp.sect)
    ensures dp.fs.win[dp.dir..dp.dir + 32] == EntriesOn(dp)[i] && dp.dir == i % 16 * 32
            && dp.fs.win[..] == dp.fs.logical[dp.sect]
    ensures dp.sect == TableSector(dp.fs.geo, dp.chain, i / 16)
  {
    hide FatGeo, TableAt, TableSector;
    TableInside(dp.fs.geo, |dp.fs.disk|, dp.fs.fat, dp.sclust, dp.chain, i);
    hide DataGeo, Fatfs.Valid, Unbroken;
    MoveWindow(dp.fs, dp.sect);
    assert dp.fs.win[dp.dir..dp.dir + 32] == dp.fs.win[..][dp.dir..dp.dir + 32];
  }

  /** dir_next without stretching. */
  method Advance(dp: Dir, ghost i: nat) returns (res: FResult)
    requires Usable(dp) && dp.AtEntry(i) && i < EntryCount(dp.fs.geo, dp.chain)
    modifies dp.fs`disk, dp.fs`logical, dp.fs`fat, dp.fs`wflag, dp.fs`winsect, dp.fs`lastClust, dp.fs`freeClust
    modifies dp.fs`fsiDirty, dp.fs.win
    modifies dp`index, dp`clust, dp`sect, dp`dir, dp`chain
    ensures Usable(dp) && dp.chain == old(dp.chain) && dp.fs.fat == old(dp.fs.fat)
    ensures EntriesOn(dp) == old(EntriesOn(dp)) && SameOutsideFats(dp.fs.geo, old(dp.fs.logical), dp.fs.logical)
    ensures res == if i + 1 < EntryCount(dp.fs.geo, dp.chain) then FrOk else FrNoFile
    ensures res == FrOk ==> dp.AtEntry(i + 1)
    ensures old(FreeExact(dp.fs)) ==> FreeExact(dp.fs)
  {
    hide FatGeo, DataGeo, Usable, Dir.AtEntry, Stretched, FreeCount, FreeExact, Capacity, Entries, TableAt;
    hide SameOutsideFats;
    ghost var m := dp.fs.logical;
    StandsOn(dp);
    res := DirNext(dp, false, i);
    EntriesKept(dp.fs.geo, dp.fs.fat, dp.sclust, dp.chain, m, dp.fs.logical);
  }

  /** dir_sdi on a usable object. */
  method SetIndex(dp: Dir, idx: nat) returns (res: FResult)
    requires Usable(dp) && idx < 0x1_0000
    modifies dp.fs`disk, dp.fs`wflag, dp.fs`winsect, dp.fs.win, dp`index, dp`clust, dp`sect, dp`dir
    ensures Usable(dp)
    ensures res == if idx < Capacity(dp.fs.geo, dp.chain) then FrOk else FrIntErr
    ensures res == FrOk ==> dp.AtEntry(idx)
  {
    hide FatGeo, DataGeo, Fatfs.Valid, Unbroken, Capacity, Known, Dir.AtEntry;
    res := DirSdi(dp, idx);
  }

  /** The current entry judged. */
  method LookAt(dp: Dir, w: Wanted, up: wchar -> wchar, s: Seek, i: nat) returns (v: Verdict)
    requires Usable(dp) && Proper(w) && dp.AtEntry(i) && i < |EntriesOn(dp)|
    modifies dp.fs`disk, dp.fs`wflag, dp.fs`winsect, dp.fs.win
    ensures Usable(dp) && dp.AtEntry(i) && v == Judge(EntriesOn(dp)[i], w, up, s, i)
  {
    hide FatGeo, DataGeo, Usable, Dir.AtEntry, Entries, Judge, Proper;
    ShowEntry(dp, i);
    v := JudgeEntry(dp.fs.win, dp.dir, w, up, s, i);
  }

  /** dir_find: it ends where the scan of the entries ends. */
  method DirFind(dp: Dir, w: Wanted, up: wchar -> wchar) returns (res: FResult, lfnIdx: nat)
    requires Usable(dp) && Proper(w) && Capacity(dp.fs.geo, dp.chain) > 0
    modifies dp.fs`disk, dp.fs`logical, dp.fs`fat, dp.fs`wflag, dp.fs`winsect, dp.fs`lastClust, dp.fs`freeClust
    modifies dp.fs`fsiDirty, dp.fs.win
    modifies dp`index, dp`clust, dp`sect, dp`dir, dp`chain
    ensures Usable(dp) && dp.chain == old(dp.chain) && dp.fs.fat == old(dp.fs.fat)
    ensures EntriesOn(dp) == old(EntriesOn(dp)) && SameOutsideFats(dp.fs.geo, old(dp.fs.logical), dp.fs.logical)
    ensures var found := Scan(old(EntriesOn(dp)), w, up, FRESH, 0);
            if found.Found? then res == FrOk && lfnIdx == found.lfnIdx && dp.AtEntry(found.at) else res == FrNoFile
    ensures if res == FrOk then FirstTarget(old(EntriesOn(dp)), w, up, dp.index, lfnIdx)
            else NoTarget(old(EntriesOn(dp)), w, up)
    ensures old(FreeExact(dp.fs)) ==> FreeExact(dp.fs)
  {
    hide FatGeo, DataGeo, Usable, Judge, Dir.AtEntry, FreeExact, Capacity, Entries, SameOutsideFats, Proper;
    hide FirstTarget, NoTarget;
    ghost var es, l := EntriesOn(dp), dp.fs.logical;
    ScanMeans(es, w, up);
    SameOutsideRefl(dp.fs.geo, l);
    lfnIdx := NO_LFN;
    res := SetIndex(dp, 0);
    var s, i: nat := FRESH, 0;
    while res == FrOk
      invariant Usable(dp) && dp.chain == old(dp.chain) && dp.fs.fat == old(dp.fs.fat) && EntriesOn(dp) == es
                && i <= |es|
      invariant SameOutsideFats(dp.fs.geo, l, dp.fs.logical) && (old(FreeExact(dp.fs)) ==> FreeExact(dp.fs))
      invariant res == FrOk ==> i < |es| && dp.AtEntry(i) && Scan(es, w, up, FRESH, 0) == Scan(es, w, up, s, i)
      invariant res != FrOk ==> res == FrNoFile && Scan(es, w, up, FRESH, 0) == NotFound
      decreases |es| - i, res == FrOk
    {
      var v := LookAt(dp, w, up, s, i);
      match v
      case EndMark =>
        res := FrNoFile;
      case Hit(idx) =>
        lfnIdx := idx;
        EntryIndex(dp, i);
        return;
      case Next(s') =>
        s := s';
        ghost var m := dp.fs.logical;
        res := Advance(dp, i);
        SameOutsideTrans(dp.fs.geo, l, m, dp.fs.logical);
        i := i + 1;
    }
  }

  lemma EntryIndex(dp: Dir, i: nat)
    requires dp.AtEntry(i)
    ensures dp.index == i
  {
  }

  /** What the members of a usable object have to do with each other. */
  lemma StandsOn(dp: Dir)
    requires Usable(dp)
    ensures FatGeo(dp.fs.geo, |dp.fs.logical|) && DataGeo(dp.fs.geo, |dp.fs.logical|)
            && DataGeo(dp.fs.geo, |dp.fs.disk|)
    ensures |dp.fs.fat| == dp.fs.geo.nFatent && TableAt(dp.fs.geo, dp.fs.fat, dp.sclust, dp.chain)
            && |dp.fs.logical| == |dp.fs.disk|
  {
  }

  // ----- dir_alloc -----

  /** Sector `s` belongs to the table. */
  ghost predicate InTableArea(g: Geo, ch: seq<nat>, s: nat) {
    if ch == [] then g.dirbase <= s < g.dirbase + g.nRootdir / 16 else Owned(g, ch, s)
  }

  /** Outside the FAT copies only sectors of the table changed. */
  ghost predicate TableOnly(g: Geo, ch: seq<nat>, l: seq<Sector>, l': seq<Sector>) {
    |l'| == |l| && forall s: nat | s < |l| && OutsideFats(g, s) && !InTableArea(g, ch, s) :: l'[s] == l[s]
  }

  /** A table that grew shows its old entries, and zero entries behind them. */
  lemma StretchedEntries(g: Geo, fat: seq<nat>, sclust: nat, ch: seq<nat>, l: seq<Sector>, fat': seq<nat>,
                         ch': seq<nat>, l': seq<Sector>)
    requires FatGeo(g, |l|) && DataGeo(g, |l|) && |fat| == g.nFatent && TableAt(g, fat, sclust, ch)
             && TableAt(g, fat', sclust, ch') && ch != []
    requires Stretched(g, fat, l, ch, fat', l', ch')
    ensures Extended(Entries(l, g, ch), Entries(l', g, ch')) && TableOnly(g, ch', l, l')
  {
    SectorsPositive(g, |l|);
    StretchedArea(g, ch, ch', l, l');
    MoreEntries(g, ch, ch');
    hide FatGeo, DataGeo, TableAt, Capacity, TableSector, ZeroSector, Owned, Grown;
    var es, fs := Entries(l, g, ch), Entries(l', g, ch');
    forall i | 0 <= i < |fs| ensures fs[i] == if i < |es| then es[i] else Zeros32() {
      StretchedEntry(g, fat, sclust, ch, l, fat', ch', l', i);
    }
    assert fs[..|es|] == es;
  }

  lemma StretchedArea(g: Geo, ch: seq<nat>, ch': seq<nat>, l: seq<Sector>, l': seq<Sector>)
    requires ch != [] && |ch'| == |ch| + 1 && |l'| == |l|
    requires forall s: nat | s < |l| && OutsideFats(g, s) :: l'[s] == if Owned(g, [ch'[|ch|]], s) then ZeroSector()
             else l[s]
    ensures TableOnly(g, ch', l, l')
  {
    hide ZeroSector;
  }

  lemma MoreEntries(g: Geo, ch: seq<nat>, ch': seq<nat>)
    requires ch != [] && |ch'| == |ch| + 1
    ensures EntryCount(g, ch) <= EntryCount(g, ch')
    ensures EntryCount(g, ch) < EntryCount(g, ch') ==> EntryCount(g, ch) == Capacity(g, ch)
  {
    MulMonotone(|ch|, |ch'|, 16 * g.csize);
  }

  lemma StretchedEntry(g: Geo, fat: seq<nat>, sclust: nat, ch: seq<nat>, l: seq<Sector>, fat': seq<nat>,
                       ch': seq<nat>, l': seq<Sector>, i: nat)
    requires FatGeo(g, |l|) && DataGeo(g, |l|) && |fat| == g.nFatent && TableAt(g, fat, sclust, ch)
             && TableAt(g, fat', sclust, ch') && ch != []
    requires Stretched(g, fat, l, ch, fat', l', ch') && i < EntryCount(g, ch')
    ensures EntryOf(l', g, ch', i) == if i < Capacity(g, ch) then EntryOf(l, g, ch, i) else Zeros32()
  {
    hide FatGeo, DataGeo, TableAt, Capacity, TableSector, ZeroSector, Stretched, EntryCount, Zeros32;
    StretchedPlace(g, fat, sclust, ch, l, fat', ch', l', i);
    ZeroEntry(i);
  }

  /** The sector of an entry is an old one, with its old contents, or one of zeros. */
  lemma StretchedPlace(g: Geo, fat: seq<nat>, sclust: nat, ch: seq<nat>, l: seq<Sector>, fat': seq<nat>,
                       ch': seq<nat>, l': seq<Sector>, i: nat)
    requires FatGeo(g, |l|) && DataGeo(g, |l|) && |fat| == g.nFatent && TableAt(g, fat, sclust, ch)
             && TableAt(g, fat', sclust, ch') && ch != []
    requires Stretched(g, fat, l, ch, fat', l', ch') && i < EntryCount(g, ch')
    ensures var s := TableSector(g, ch', i / 16);
            && s < |l| == |l'|
            && if i < Capacity(g, ch) then s == TableSector(g, ch, i / 16) && l'[s] == l[s] else l'[s] == ZeroSector()
  {
    SectorsPositive(g, |l|);
    assert |fat'| == g.nFatent;
    TableInside(g, |l|, fat', sclust, ch', i);
    ChainedSector(g, fat', sclust, ch', i);
    GrownFree(fat, fat', ch, ch');
    var k, q := i / 16, i / 16 / g.csize;
    InCapacity(i, g.csize, |ch|);
    InCapacity(i, g.csize, |ch'|);
    SectorOwner(g, |l|, ch', k);
    if q < |ch| {
      hide *;
      OldSector(g, fat, sclust, ch, ch', i);
      NotNew(g, fat, sclust, ch, ch'[|ch|], q);
    }
    hide FatGeo, DataGeo, TableAt, TableSector, ZeroSector, IsChain, SectorOf, OwnerOf, Grown;
    var s := TableSector(g, ch', k);
    assert Owned(g, [ch'[|ch|]], s) <==> ch'[q] == ch'[|ch|];
  }

  /** A sector the table had before it was stretched. */
  lemma OldSector(g: Geo, fat: seq<nat>, sclust: nat, ch: seq<nat>, ch': seq<nat>, i: nat)
    requires g.csize > 0 && |fat| == g.nFatent && TableAt(g, fat, sclust, ch) && ch != [] && ch <= ch'
             && i / 16 / g.csize < |ch|
    ensures ch'[i / 16 / g.csize] == ch[i / 16 / g.csize] >= 2
    ensures SectorOf(g, ch', i / 16) == TableSector(g, ch, i / 16)
  {
    hide SectorOf, TableAt, TableSector;
    InCapacity(i, g.csize, |ch|);
    ChainedSector(g, fat, sclust, ch, i);
    SectorOfPrefix(g, ch, ch', i / 16);
  }

  lemma NotNew(g: Geo, fat: seq<nat>, sclust: nat, ch: seq<nat>, c: nat, q: nat)
    requires TableAt(g, fat, sclust, ch) && ch != [] && q < |ch| && InTable(fat, c) && fat[c] == 0
    ensures ch[q] != c
  {
    hide IsChain;
    NotOnChain(fat, ch, c);
  }

  lemma ZeroEntry(i: nat)
    ensures ZeroSector()[i % 16 * 32..i % 16 * 32 + 32] == Zeros32()
  {
  }

  lemma SectorOwner(g: Geo, total: nat, ch: seq<nat>, k: nat)
    requires FatGeo(g, total) && DataGeo(g, total) && ChainOn(g, ch) && k / g.csize < |ch|
    ensures SectorOf(g, ch, k) >= g.database && OwnerOf(g, SectorOf(g, ch, k)) == ch[k / g.csize]
  {
    hide FatGeo, DataGeo, ClusterSector, OwnerOf;
    SectorOfRange(g, total, ch, k);
    ClusterSectorRange(g, total, ch[k / g.csize], k % g.csize);
  }

  /** The table has `n` entries and cannot grow. */
  ghost predicate Complete(dp: Dir, n: nat)
    requires |dp.fs.fat| >= 2
    reads dp`chain, dp.fs`geo, dp.fs`logical, dp.fs`fat
  {
    && n == |EntriesOn(dp)|
    && (dp.chain == [] || n == 0x1_0000 || FreeCount(dp.fs.fat) == 0)
  }

  /** dir_next with stretching. */
  method AdvanceOrStretch(dp: Dir, ghost i: nat) returns (res: FResult)
    requires Usable(dp) && dp.AtEntry(i) && i < EntryCount(dp.fs.geo, dp.chain)
    modifies dp.fs`disk, dp.fs`logical, dp.fs`fat, dp.fs`wflag, dp.fs`winsect, dp.fs`lastClust, dp.fs`freeClust
    modifies dp.fs`fsiDirty, dp.fs.win
    modifies dp`index, dp`clust, dp`sect, dp`dir, dp`chain
    ensures Usable(dp)
    ensures Progressed(dp.fs.geo, old(dp.fs.fat), old(dp.fs.logical), old(dp.chain), dp.fs.fat, dp.fs.logical, dp.chain)
    ensures res in {FrOk, FrNoFile, FrDenied, FrIntErr}
    ensures res == FrOk ==> dp.AtEntry(i + 1) && i + 1 < |EntriesOn(dp)|
    ensures res == FrNoFile || res == FrDenied ==> Complete(dp, i + 1)
    ensures res == FrIntErr ==> !Unbroken(old(dp.fs.fat))
    ensures old(FreeExact(dp.fs)) ==> FreeExact(dp.fs)
  {
    hide FatGeo, DataGeo, Usable, Dir.AtEntry, Stretched, FreeCount, FreeExact, Entries, TableAt, SameOutsideFats;
    hide TableOnly, Grown, Unbroken;
    ghost var g, l, fat, ch, es := dp.fs.geo, dp.fs.logical, dp.fs.fat, dp.chain, EntriesOn(dp);
    StandsOn(dp);
    KindFixed(dp);
    NotEmpty(dp, i);
    res := DirNext(dp, true, i);
    StandsOn(dp);
    KindFixed(dp);
    if res == FrOk && i + 1 >= Capacity(g, ch) {
      StretchedEntries(g, fat, dp.sclust, ch, l, dp.fs.fat, dp.chain, dp.fs.logical);
      StretchedGrown(g, fat, l, ch, dp.fs.fat, dp.fs.logical, dp.chain);
      MoreThan(dp, i + 1);
    } else {
      EntriesKept(g, fat, dp.sclust, ch, l, dp.fs.logical);
      ExtendedSame(es);
      GrownRefl(fat, ch);
      OutsideOnly(g, ch, l, dp.fs.logical);
    }
  }

  lemma NotEmpty(dp: Dir, i: nat)
    requires Usable(dp) && dp.AtEntry(i)
    ensures i < Capacity(dp.fs.geo, dp.chain)
  {
  }

  lemma MoreThan(dp: Dir, i: nat)
    requires dp.AtEntry(i) && i < 0x1_0000
    ensures i < |EntriesOn(dp)|
  {
  }

  lemma ExtendedSame(es: seq<seq<byte>>)
    ensures Extended(es, es)
  {
  }

  lemma StretchedGrown(g: Geo, fat: seq<nat>, l: seq<Sector>, ch: seq<nat>, fat': seq<nat>, l': seq<Sector>,
                       ch': seq<nat>)
    requires Stretched(g, fat, l, ch, fat', l', ch')
    ensures Grown(fat, fat', ch, ch')
  {
  }

  lemma OutsideOnly(g: Geo, ch: seq<nat>, l: seq<Sector>, l': seq<Sector>)
    requires SameOutsideFats(g, l, l')
    ensures TableOnly(g, ch, l, l')
  {
  }

  /** From one state to another the table grew at most: by free clusters, with zero entries; sectors of other tables
      and files are as they were. */
  ghost predicate Progressed(g: Geo, fat: seq<nat>, l: seq<Sector>, ch: seq<nat>, fat': seq<nat>, l': seq<Sector>,
                             ch': seq<nat>)
    ensures Progressed(g, fat, l, ch, fat', l', ch') ==> Extended(Entries(l, g, ch), Entries(l', g, ch'))
  {
    && Grown(fat, fat', ch, ch') && TableOnly(g, ch', l, l') && Extended(Entries(l, g, ch), Entries(l', g, ch'))
    && (ch == [] <==> ch' == [])
  }

  lemma ProgressedRefl(g: Geo, fat: seq<nat>, l: seq<Sector>, ch: seq<nat>)
    ensures Progressed(g, fat, l, ch, fat, l, ch)
  {
  }

  lemma ProgressedOn(g: Geo, fat: seq<nat>, l: seq<Sector>, ch: seq<nat>, fat': seq<nat>, l': seq<Sector>,
                     ch': seq<nat>,
                     fat'': seq<nat>, l'': seq<Sector>, ch'': seq<nat>)
    requires Progressed(g, fat, l, ch, fat', l', ch') && Progressed(g, fat', l', ch', fat'', l'', ch'')
             && (ch' == [] || IsChain(fat', ch'))
    ensures Progressed(g, fat, l, ch, fat'', l'', ch'')
  {
    hide Entries, Owned, IsChain;
    GrownTrans(fat, fat', fat'', ch, ch', ch'');
    ExtendedOn(Entries(l, g, ch), Entries(l', g, ch'), Entries(l'', g, ch''));
    hide Grown, Extended;
    assert forall c | c in ch' :: c in ch'' by {
      assert forall i | 0 <= i < |ch'| :: ch'[i] == ch''[i];
    }
    AreaGrows(g, ch', ch'');
  }

  lemma AreaGrows(g: Geo, ch: seq<nat>, ch': seq<nat>)
    requires (ch == [] <==> ch' == []) && forall c | c in ch :: c in ch'
    ensures forall s: nat | InTableArea(g, ch, s) :: InTableArea(g, ch', s)
  {
  }

  /** The run of `n` blank entries that ends in front of entry `i`. */
  ghost predicate RunBefore(es: seq<seq<byte>>, n: nat, i: nat)
    requires Table(es)
  {
    n <= i <= |es| && (forall j | i - n <= j < i :: Blank(es[j])) && (i - n > 0 ==> !Blank(es[i - n - 1]))
  }

  lemma RunOn(es: seq<seq<byte>>, n: nat, i: nat)
    requires Table(es) && RunBefore(es, n, i) && i < |es|
    ensures RunBefore(es, if Blank(es[i]) then n + 1 else 0, i + 1)
  {
  }

  lemma RunExtended(es: seq<seq<byte>>, fs: seq<seq<byte>>, n: nat, i: nat)
    requires Table(es) && Table(fs) && Extended(es, fs) && RunBefore(es, n, i)
    ensures RunBefore(fs, n, i)
  {
    ExtendedFacts(es, fs);
  }

  predicate AllBlank(es: seq<seq<byte>>, k: nat, n: nat)
    requires Table(es)
  {
    k + n <= |es| && forall j | k <= j < k + n :: Blank(es[j])
  }

  /** Nowhere before entry `i` are `n` blank entries in a row. */
  ghost predicate NoneFits(es: seq<seq<byte>>, n: nat, i: nat)
    requires Table(es)
  {
    forall k: nat | k + n <= i :: !AllBlank(es, k, n)
  }

  lemma NoneFitsOn(es: seq<seq<byte>>, n: nat, nent: nat, i: nat)
    requires Table(es) && n < nent && RunBefore(es, n, i + 1) && NoneFits(es, nent, i)
    ensures NoneFits(es, nent, i + 1)
  {
    if nent <= i + 1 {
      assert !Blank(es[i - n]);
    }
  }

  lemma NoneFitsExtended(es: seq<seq<byte>>, fs: seq<seq<byte>>, nent: nat, i: nat)
    requires Table(es) && Table(fs) && Extended(es, fs) && NoneFits(es, nent, i) && i <= |es|
    ensures NoneFits(fs, nent, i)
  {
    ExtendedFacts(es, fs);
    forall k: nat | k + nent <= i ensures !AllBlank(fs, k, nent) {
      assert !AllBlank(es, k, nent);
    }
  }

  /** dir_alloc: stands on the last of the first `nent` blank entries in a row; the table may have grown by zero entries
      on the way. It fails only when there is no such row and the table cannot grow. */
  method DirAlloc(dp: Dir, nent: nat) returns (res: FResult, ghost k: nat)
    requires Usable(dp) && nent >= 1 && Capacity(dp.fs.geo, dp.chain) > 0
    modifies dp.fs`disk, dp.fs`logical, dp.fs`fat, dp.fs`wflag, dp.fs`winsect, dp.fs`lastClust, dp.fs`freeClust
    modifies dp.fs`fsiDirty, dp.fs.win
    modifies dp`index, dp`clust, dp`sect, dp`dir, dp`chain
    ensures Usable(dp)
    ensures Progressed(dp.fs.geo, old(dp.fs.fat), old(dp.fs.logical), old(dp.chain), dp.fs.fat, dp.fs.logical, dp.chain)
    ensures res in {FrOk, FrDenied} || (res == FrIntErr && !Unbroken(old(dp.fs.fat)))
    ensures res == FrOk ==>
              FreeRun(EntriesOn(dp), nent, k) && dp.AtEntry(k + nent - 1)
              && NoneFits(EntriesOn(dp), nent, k + nent - 1)
    ensures res == FrDenied ==> Complete(dp, |EntriesOn(dp)|) && NoneFits(EntriesOn(dp), nent, |EntriesOn(dp)|)
    ensures old(FreeExact(dp.fs)) ==> FreeExact(dp.fs)
  {
    hide *;
    ghost var g, l, fat, ch := dp.fs.geo, dp.fs.logical, dp.fs.fat, dp.chain;
    ghost var es := EntriesOn(dp);
    ProgressedRefl(g, fat, l, ch);
    NoRun(es, nent);
    ghost var i: nat := 0;
    k := 0;
    SomeIndex(dp);
    res := SetIndex(dp, 0);
    var n: nat := 0;
    while res == FrOk
      invariant Usable(dp) && es == EntriesOn(dp) && dp.fs.geo == g
      invariant Progressed(g, fat, l, ch, dp.fs.fat, dp.fs.logical, dp.chain)
      invariant (old(FreeExact(dp.fs)) ==> FreeExact(dp.fs)) && res in {FrOk, FrNoFile, FrDenied, FrIntErr}
                && n < nent && i <= 0x1_0000
      invariant res == FrOk ==> i < |es| && dp.AtEntry(i) && RunBefore(es, n, i)
      invariant NoneFits(es, nent, i) && (res == FrNoFile || res == FrDenied ==> Complete(dp, i))
      invariant (Unbroken(fat) ==> Unbroken(dp.fs.fat)) && (res == FrIntErr ==> !Unbroken(fat))
      decreases 0x1_0000 - i, res == FrOk
    {
      var blank := TestBlank(dp, i);
      RunOn(es, n, i);
      if blank {
        n := n + 1;
        if n == nent {
          k := RunFound(es, nent, i);
          return;
        }
      } else {
        n := 0;
      }
      ghost var l', fat', ch' := dp.fs.logical, dp.fs.fat, dp.chain;
      TableCount(dp);
      EntriesAre(dp);
      res := AdvanceOrStretch(dp, i);
      EntriesAre(dp);
      Stepped(g, fat, l, ch, fat', l', ch', dp.fs.fat, dp.fs.logical, dp.chain, n, nent, i);
      StillUnbroken(dp, fat', l', ch');
      es := EntriesOn(dp);
      i := i + 1;
    }
    TableLength(dp);
    CompleteAt(dp, i);
    if res == FrNoFile {
      res := FrDenied;
    }
  }

  lemma TableLength(dp: Dir)
    requires Usable(dp)
    ensures |dp.fs.fat| >= 2
  {
  }

  lemma SomeIndex(dp: Dir)
    ensures Capacity(dp.fs.geo, dp.chain) > 0 ==> 0 < |EntriesOn(dp)|
  {
  }

  /** No more entries than an index can name; the table is chained as a whole. */
  lemma TableCount(dp: Dir)
    requires Usable(dp)
    ensures |EntriesOn(dp)| <= 0x1_0000 && (dp.chain == [] || IsChain(dp.fs.fat, dp.chain))
  {
    ChainOfTable(dp);
  }

  /** What is known of the entries looked at holds of the table as it is one entry later. */
  lemma Stepped(g: Geo, fat: seq<nat>, l: seq<Sector>, ch: seq<nat>, fat': seq<nat>, l': seq<Sector>, ch': seq<nat>,
                fat'': seq<nat>, l'': seq<Sector>, ch'': seq<nat>, n: nat, nent: nat, i: nat)
    requires Progressed(g, fat, l, ch, fat', l', ch') && Progressed(g, fat', l', ch', fat'', l'', ch'')
             && (ch' == [] || IsChain(fat', ch'))
    requires n < nent && RunBefore(Entries(l', g, ch'), n, i + 1) && NoneFits(Entries(l', g, ch'), nent, i)
    ensures Progressed(g, fat, l, ch, fat'', l'', ch'')
    ensures RunBefore(Entries(l'', g, ch''), n, i + 1) && NoneFits(Entries(l'', g, ch''), nent, i + 1)
  {
    hide *;
    var es, fs := Entries(l', g, ch'), Entries(l'', g, ch'');
    ProgressedOn(g, fat, l, ch, fat', l', ch', fat'', l'', ch'');
    RunExtended(es, fs, n, i + 1);
    NoneFitsOn(es, n, nent, i);
    RunWithin(es, n, i + 1);
    NoneFitsExtended(es, fs, nent, i + 1);
  }

  lemma RunWithin(es: seq<seq<byte>>, n: nat, i: nat)
    requires Table(es) && RunBefore(es, n, i)
    ensures i <= |es|
  {
  }

  lemma StillUnbroken(dp: Dir, fat: seq<nat>, l: seq<Sector>, ch: seq<nat>)
    requires Usable(dp) && Progressed(dp.fs.geo, fat, l, ch, dp.fs.fat, dp.fs.logical, dp.chain)
    ensures Unbroken(fat) ==> Unbroken(dp.fs.fat)
  {
    ChainOfTable(dp);
    ProgressedMeans(dp.fs.geo, fat, l, ch, dp.fs.fat, dp.fs.logical, dp.chain);
    hide *;
    GrownUnbroken(fat, dp.fs.fat, ch, dp.chain);
  }

  lemma CompleteAt(dp: Dir, n: nat)
    requires |dp.fs.fat| >= 2
    ensures Complete(dp, n) ==> n == |EntriesOn(dp)|
  {
  }

  /** Whether the current entry is blank. */
  method TestBlank(dp: Dir, ghost i: nat) returns (blank: bool)
    requires Usable(dp) && dp.AtEntry(i) && i < |EntriesOn(dp)|
    modifies dp.fs`disk, dp.fs`wflag, dp.fs`winsect, dp.fs.win
    ensures Usable(dp) && dp.AtEntry(i) && blank == Blank(EntriesOn(dp)[i])
  {
    hide FatGeo, DataGeo, Usable, Dir.AtEntry, Entries;
    ShowEntry(dp, i);
    assert dp.fs.win[dp.dir] == dp.fs.win[dp.dir..dp.dir + 32][0];
    blank := dp.fs.win[dp.dir] as int == DDE || dp.fs.win[dp.dir] == 0;
  }

  lemma NoRun(es: seq<seq<byte>>, nent: nat)
    requires Table(es) && nent >= 1
    ensures RunBefore(es, 0, 0) && NoneFits(es, nent, 0)
  {
  }

  lemma RunFound(es: seq<seq<byte>>, n: nat, i: nat) returns (k: nat)
    requires Table(es) && n >= 1 && RunBefore(es, n, i + 1)
    ensures k + n - 1 == i && FreeRun(es, n, k)
  {
    k := i + 1 - n;
  }

  lemma ChainOfTable(dp: Dir)
    requires Usable(dp)
    ensures dp.chain == [] || IsChain(dp.fs.fat, dp.chain)
  {
  }

  /** A table stays chained or static. */
  lemma KindFixed(dp: Dir)
    requires Usable(dp)
    ensures dp.chain == [] <==> dp.sclust == 0 && dp.fs.geo.fsType != Fat32
  {
  }

  // ----- dir_register -----

  /** Entry `i` became `e`, and nothing else. */
  ghost predicate EntrySet(es: seq<seq<byte>>, fs: seq<seq<byte>>, i: nat, e: seq<byte>) {
    i < |es| && |e| == 32 && fs == es[i := e]
  }

  /** The window, written into within the current entry, is marked dirty: that entry of the table changed. */
  method MarkEntry(dp: Dir, ghost i: nat, ghost w: Sector)
    requires ValidWith(dp.fs, w) && dp.fs.freeClust < 0x1_0000_0000 && DataGeo(dp.fs.geo, |dp.fs.disk|) && Known(dp)
    requires dp.fs.win.Length == 512 && i < EntryCount(dp.fs.geo, dp.chain) && |dp.fs.fat| == dp.fs.geo.nFatent
    requires dp.fs.winsect == TableSector(dp.fs.geo, dp.chain, i / 16) && w == dp.fs.logical[dp.fs.winsect]
    requires forall b | 0 <= b < 512 && !(i % 16 * 32 <= b < i % 16 * 32 + 32) :: dp.fs.win[b] == w[b]
    modifies dp.fs`wflag, dp.fs`logical
    ensures Usable(dp) && EntrySet(old(EntriesOn(dp)), EntriesOn(dp), i, dp.fs.win[i % 16 * 32..i % 16 * 32 + 32])
    ensures TableOnly(dp.fs.geo, dp.chain, old(dp.fs.logical), dp.fs.logical)
  {
    hide FatGeo, DataGeo, Unbroken, Mirrored, Overlay, Fatfs.Valid, TableSector, Entries, Capacity;
    TableInside(dp.fs.geo, |dp.fs.disk|, dp.fs.fat, dp.sclust, dp.chain, i);
    EntryStored(dp.fs.geo, dp.fs.fat, dp.sclust, dp.chain, dp.fs.logical, i, dp.fs.win[..]);
    assert dp.fs.win[..][i % 16 * 32..i % 16 * 32 + 32] == dp.fs.win[i % 16 * 32..i % 16 * 32 + 32];
    SectorInArea(dp.fs.geo, |dp.fs.disk|, dp.fs.fat, dp.sclust, dp.chain, i);
    MarkWindow(dp.fs, w);
  }

  lemma SectorInArea(g: Geo, total: nat, fat: seq<nat>, sclust: nat, ch: seq<nat>, i: nat)
    requires FatGeo(g, total) && DataGeo(g, total) && |fat| == g.nFatent && TableAt(g, fat, sclust, ch)
             && i < Capacity(g, ch)
    ensures InTableArea(g, ch, TableSector(g, ch, i / 16))
  {
    if ch != [] {
      SectorsPositive(g, total);
      ChainedSector(g, fat, sclust, ch, i);
      SectorOwner(g, total, ch, i / 16);
      hide *;
    }
  }

  /** fit_lfn on the current entry. */
  method StoreSegment(dp: Dir, lfnbuf: seq<wchar>, ord: nat, sum: byte, ghost i: nat, ghost name: seq<wchar>)
    returns (ghost e: seq<byte>)
    requires Usable(dp) && dp.AtEntry(i) && i < |EntriesOn(dp)| && Nameable(name) && InBuffer(lfnbuf, name)
             && Order(name, ord)
    modifies dp.fs`disk, dp.fs`wflag, dp.fs`winsect, dp.fs`logical, dp.fs.win
    ensures Usable(dp) && dp.AtEntry(i) && EntrySet(old(EntriesOn(dp)), EntriesOn(dp), i, e)
            && SegmentAt(e, 0, name, ord, sum)
    ensures TableOnly(dp.fs.geo, dp.chain, old(dp.fs.logical), dp.fs.logical)
  {
    hide *;
    PositiveOrder(name, ord);
    ShowEntry(dp, i);
    StandsOn(dp);
    UsableParts(dp);
    Remembered(dp.fs);
    ghost var w: Sector := dp.fs.win[..];
    FitLfn(lfnbuf, dp.fs.win, dp.dir, ord, sum, name);
    e := dp.fs.win[dp.dir..dp.dir + 32];
    SegmentSlice(dp.fs.win[..], dp.dir, name, ord, sum);
    MarkEntry(dp, i, w);
  }

  lemma PositiveOrder(name: seq<wchar>, ord: nat)
    requires Order(name, ord)
    ensures ord >= 1
  {
  }

  lemma UsableParts(dp: Dir)
    requires Usable(dp)
    ensures dp.fs.Valid() && dp.fs.freeClust < 0x1_0000_0000 && dp.fs.win.Length == 512 && Known(dp)
  {
  }

  lemma SegmentSlice(w: seq<byte>, o: nat, name: seq<wchar>, ord: nat, sum: byte)
    requires ord >= 1 && o + 32 <= |w| && SegmentAt(w, o, name, ord, sum)
    ensures SegmentAt(w[o..o + 32], 0, name, ord, sum)
  {
    var e := w[o..o + 32];
    forall s: nat | s < 13 ensures LdWord(e, LfnOfs(s)) == Char(name, (ord - 1) * 13 + s) {
      assert LdWord(w, o + LfnOfs(s)) == Char(name, (ord - 1) * 13 + s);
    }
  }

  /** The short entry: zeros, the 8.3 form, the letter-case flags. */
  method StoreShort(dp: Dir, sfn: seq<byte>, nt: byte, ghost i: nat) returns (ghost e: seq<byte>)
    requires Usable(dp) && dp.AtEntry(i) && i < |EntriesOn(dp)| && |sfn| == 11
    modifies dp.fs`disk, dp.fs`wflag, dp.fs`winsect, dp.fs`logical, dp.fs.win
    ensures Usable(dp) && dp.AtEntry(i) && EntrySet(old(EntriesOn(dp)), EntriesOn(dp), i, e)
    ensures e == ShortNames.ShortEntry(sfn, nt)
    ensures TableOnly(dp.fs.geo, dp.chain, old(dp.fs.logical), dp.fs.logical)
  {
    hide FatGeo, DataGeo, Dir.AtEntry, Entries, TableSector, Fatfs.Valid, Unbroken, Known, EntryCount, EntrySet;
    hide TableOnly;
    ShowEntry(dp, i);
    StandsOn(dp);
    Remembered(dp.fs);
    hide ValidWith;
    ghost var w: Sector := dp.fs.win[..];
    PutShort(dp.fs.win, dp.dir, sfn, nt);
    e := dp.fs.win[dp.dir..dp.dir + 32];
    MarkEntry(dp, i, w);
  }

  /** The bytes of a short entry at offset `o`. */
  method PutShort(win: array<byte>, o: nat, sfn: seq<byte>, nt: byte)
    requires o + 32 <= win.Length && |sfn| == 11
    modifies win
    ensures win[o..o + 32] == ShortNames.ShortEntry(sfn, nt)
    ensures forall b | 0 <= b < win.Length && !(o <= b < o + 32) :: win[b] == old(win[b])
  {
    forall b | o <= b < o + 32 {
      win[b] := 0;
    }
    forall b | o <= b < o + 11 {
      win[b] := sfn[b - o];
    }
    win[o + 12] := nt;
  }

  /** An entry of the table has the 8.3 form `sfn`. */
  ghost predicate Taken(es: seq<seq<byte>>, w: Wanted, sfn: seq<byte>, up: wchar -> wchar) {
    && Table(es) && Proper(w.(sfn := sfn))
    && Scan(es, ShortOnly(w, sfn), up, FRESH, 0).Found?
  }

  lemma CandidateStarts(src: seq<byte>, lfn: seq<wchar>, n: nat)
    requires |src| == 11 && n < 0x1_0000 && src[0] != 0 && src[0] as int != DDE
    ensures Candidate(src, lfn, n)[0] != 0 && Candidate(src, lfn, n)[0] as int != DDE
  {
    hide Numbered, NumberFor;
    NumberBack(src, NumberFor(lfn, n));
  }

  lemma FirstCandidate(es: seq<seq<byte>>, w: Wanted, n: nat, up: wchar -> wchar)
    requires |w.sfn| == 11 && 1 <= n < 100 && forall m: nat | 1 <= m < n :: Taken(es, w, Candidate(w.sfn, w.lfn, m), up)
    ensures FirstUntaken(es, w, Candidate(w.sfn, w.lfn, n), up)
  {
    hide Candidate, Taken;
  }

  /** `sfn` is one of the 99 candidates, and those before it are taken. */
  ghost predicate FirstUntaken(es: seq<seq<byte>>, w: Wanted, sfn: seq<byte>, up: wchar -> wchar) {
    && |w.sfn| == 11
    && exists n: nat :: 1 <= n < 100 && sfn == Candidate(w.sfn, w.lfn, n)
                        && forall m: nat | 1 <= m < n :: Taken(es, w, Candidate(w.sfn, w.lfn, m), up)
  }

  /** The first numbered 8.3 form that no entry has; FR_DENIED when the first 99 are all taken. */
  method NumberName(dp: Dir, w: Wanted, up: wchar -> wchar) returns (res: FResult, sfn: seq<byte>)
    requires Usable(dp) && Proper(w) && Capacity(dp.fs.geo, dp.chain) > 0
    modifies dp.fs`disk, dp.fs`logical, dp.fs`fat, dp.fs`wflag, dp.fs`winsect, dp.fs`lastClust, dp.fs`freeClust
    modifies dp.fs`fsiDirty, dp.fs.win
    modifies dp`index, dp`clust, dp`sect, dp`dir, dp`chain
    ensures Usable(dp) && dp.chain == old(dp.chain) && dp.fs.fat == old(dp.fs.fat)
    ensures EntriesOn(dp) == old(EntriesOn(dp)) && SameOutsideFats(dp.fs.geo, old(dp.fs.logical), dp.fs.logical)
    ensures res in {FrOk, FrDenied} && |sfn| == 11 && sfn[0] != 0 && sfn[0] as int != DDE
    ensures res == FrOk ==>
            Scan(EntriesOn(dp), ShortOnly(w, sfn), up, FRESH, 0) == NotFound
    ensures res == FrOk ==> FirstUntaken(EntriesOn(dp), w, sfn, up)
    ensures res == FrDenied ==> forall m: nat | 1 <= m < 100 :: Taken(EntriesOn(dp), w, Candidate(w.sfn, w.lfn, m), up)
    ensures old(FreeExact(dp.fs)) ==> FreeExact(dp.fs)
  {
    hide FatGeo, DataGeo, Usable, Dir.AtEntry, FreeExact, Entries, Capacity, SameOutsideFats, Scan, Candidate;
    hide FirstUntaken;
    ghost var l := dp.fs.logical;
    SameOutsideRefl(dp.fs.geo, l);
    sfn := w.sfn;
    var n: nat := 1;
    while n < 100
      invariant n <= 100 && |sfn| == 11 && sfn[0] != 0 && sfn[0] as int != DDE
      invariant Usable(dp) && dp.chain == old(dp.chain) && dp.fs.fat == old(dp.fs.fat)
                && EntriesOn(dp) == old(EntriesOn(dp))
      invariant SameOutsideFats(dp.fs.geo, l, dp.fs.logical) && (old(FreeExact(dp.fs)) ==> FreeExact(dp.fs))
      invariant forall m: nat | 1 <= m < n :: Taken(EntriesOn(dp), w, Candidate(w.sfn, w.lfn, m), up)
    {
      sfn := GenNumName(w.sfn, w.lfn, n);
      CandidateStarts(w.sfn, w.lfn, n);
      var idx;
      ghost var m := dp.fs.logical;
      res, idx := DirFind(dp, ShortOnly(w, sfn), up);
      SameOutsideTrans(dp.fs.geo, l, m, dp.fs.logical);
      if res != FrOk {
        FirstCandidate(EntriesOn(dp), w, n, up);
        return FrOk, sfn;
      }
      n := n + 1;
    }
    res := FrDenied;
  }

  /** The long name segments into the entries from `k` on, the highest order first. */
  method StoreLongName(dp: Dir, w: Wanted, sum: byte, n: nat, ghost k: nat, ghost name: seq<wchar>)
    returns (res: FResult)
    requires Usable(dp) && dp.AtEntry(k) && n >= 1 && k + n < |EntriesOn(dp)| && Nameable(name)
             && InBuffer(w.lfn, name) && n == SegmentCount(|name|)
    modifies dp.fs`disk, dp.fs`logical, dp.fs`fat, dp.fs`wflag, dp.fs`winsect, dp.fs`lastClust, dp.fs`freeClust
    modifies dp.fs`fsiDirty, dp.fs.win
    modifies dp`index, dp`clust, dp`sect, dp`dir, dp`chain
    ensures Usable(dp) && dp.chain == old(dp.chain) && dp.fs.fat == old(dp.fs.fat) && res == FrOk && dp.AtEntry(k + n)
    ensures SameBut(old(EntriesOn(dp)), EntriesOn(dp), k, n)
    ensures forall i | k <= i < k + n :: SegmentAt(EntriesOn(dp)[i], 0, name, k + n - i, sum)
    ensures TableOnly(dp.fs.geo, dp.chain, old(dp.fs.logical), dp.fs.logical)
    ensures old(FreeExact(dp.fs)) ==> FreeExact(dp.fs)
  {
    hide FatGeo, DataGeo, Usable, Dir.AtEntry, FreeExact, Entries, Capacity, SameOutsideFats, SegmentAt, Nameable;
    hide InBuffer, TableOnly;
    ghost var l, g, ch, es := dp.fs.logical, dp.fs.geo, dp.chain, EntriesOn(dp);
    SameOutsideRefl(g, l);
    OutsideOnly(g, ch, l, l);
    var nent := n;
    res := FrOk;
    ghost var i := k;
    while nent > 0
      invariant 0 <= nent <= n && i == k + n - nent && res == FrOk
      invariant Usable(dp) && dp.chain == ch && dp.fs.fat == old(dp.fs.fat) && dp.AtEntry(i) && |EntriesOn(dp)| == |es|
      invariant forall j | 0 <= j < |es| && !(k <= j < i) :: EntriesOn(dp)[j] == es[j]
      invariant forall j | k <= j < i :: SegmentAt(EntriesOn(dp)[j], 0, name, k + n - j, sum)
      invariant TableOnly(g, ch, l, dp.fs.logical) && (old(FreeExact(dp.fs)) ==> FreeExact(dp.fs))
    {
      ghost var m := dp.fs.logical;
      ghost var e := StoreSegment(dp, w.lfn, nent, sum, i, name);
      ghost var m' := dp.fs.logical;
      res := Advance(dp, i);
      OutsideOnly(g, ch, m', dp.fs.logical);
      TableOnlyOn(g, ch, l, m, m');
      TableOnlyOn(g, ch, l, m', dp.fs.logical);
      nent := nent - 1;
      i := i + 1;
    }
  }

  lemma TableOnlyOn(g: Geo, ch: seq<nat>, l: seq<Sector>, l': seq<Sector>, l'': seq<Sector>)
    requires TableOnly(g, ch, l, l') && TableOnly(g, ch, l', l'')
    ensures TableOnly(g, ch, l, l'')
  {
    hide InTableArea;
  }

  /** Length of the name in the buffer. */
  method NameLength(lfn: seq<wchar>, ghost name: seq<wchar>) returns (n: nat)
    requires Nameable(name) && InBuffer(lfn, name)
    ensures n == |name|
  {
    n := 0;
    assert lfn[..|name|][0] == lfn[0];
    while lfn[n] != 0
      invariant n <= |name| && (n < |name| ==> lfn[..|name|][n] == lfn[n])
      decreases |name| - n
    {
      n := n + 1;
      assert n < |name| ==> lfn[..|name|][n] == lfn[n];
    }
  }

  /** From the entries `es` of a table to `gs`: it grew to `fs` at most, and `n` blank entries from `k` on became those
      of the name, the short one with the 8.3 form `sfn`. With `loss` that is the first numbered form no entry had. */
  ghost predicate Made(es: seq<seq<byte>>, fs: seq<seq<byte>>, gs: seq<seq<byte>>, k: nat, n: nat, w: Wanted,
                       sfn: seq<byte>, nt: byte, name: seq<wchar>, up: wchar -> wchar)
  {
    && Table(es) && Table(fs) && Table(gs) && Proper(w.(sfn := sfn)) && Proper(ShortOnly(w, sfn))
    && Extended(es, fs) && FreeRun(fs, n, k) && SameBut(fs, gs, k, n)
    && Registered(gs, k, n, w.(sfn := sfn), name) && gs[k + n - 1] == ShortNames.ShortEntry(sfn, nt)
    && (w.loss ==> FirstUntaken(es, w, sfn, up) && Scan(es, ShortOnly(w, sfn), up, FRESH, 0) == NotFound)
  }

  /** dir_register: the entries of a name, in a run of blank entries of the table, which grows if it must. With `loss`
      the 8.3 form is replaced by a numbered one that no entry has. */
  method DirRegister(dp: Dir, w: Wanted, longName: bool, nt: byte, up: wchar -> wchar, ghost name: seq<wchar>)
    returns (res: FResult, sfn: seq<byte>, ghost k: nat, ghost n: nat, ghost es: seq<seq<byte>>)
    requires Usable(dp) && Proper(w) && Capacity(dp.fs.geo, dp.chain) > 0
    requires Nameable(name) && InBuffer(w.lfn, name) && (w.loss ==> longName)
    modifies dp.fs`disk, dp.fs`logical, dp.fs`fat, dp.fs`wflag, dp.fs`winsect, dp.fs`lastClust, dp.fs`freeClust
    modifies dp.fs`fsiDirty, dp.fs.win
    modifies dp`index, dp`clust, dp`sect, dp`dir, dp`chain
    ensures Usable(dp) && (res in {FrOk, FrDenied} || (res == FrIntErr && !Unbroken(old(dp.fs.fat))))
    ensures |sfn| == 11 && sfn[0] != 0 && sfn[0] as int != DDE && (!w.loss ==> sfn == w.sfn)
    ensures n == if longName then SegmentCount(|name|) + 1 else 1
    ensures res == FrOk ==> k + n >= 1 && dp.AtEntry(k + n - 1)
    ensures res == FrOk ==> Made(old(EntriesOn(dp)), es, EntriesOn(dp), k, n, w, sfn, nt, name, up)
    ensures Grown(old(dp.fs.fat), dp.fs.fat, old(dp.chain), dp.chain)
    ensures TableOnly(dp.fs.geo, dp.chain, old(dp.fs.logical), dp.fs.logical)
    ensures old(FreeExact(dp.fs)) ==> FreeExact(dp.fs)
  {
    hide FatGeo, DataGeo, Usable, Dir.AtEntry, FreeExact, Entries, Capacity, SameOutsideFats, SegmentAt, Nameable,
      InBuffer, TableOnly, SameBut, Made,
      Grown, Scan, Progressed, FreeRun, Extended, Registered, InTableArea, FirstUntaken, Unbroken;
    ghost var g, l, fat, ch, es0 := dp.fs.geo, dp.fs.logical, dp.fs.fat, dp.chain, EntriesOn(dp);
    sfn, k, es := w.sfn, 0, EntriesOn(dp);
    n := if longName then SegmentCount(|name|) + 1 else 1;
    GrownRefl(fat, ch);
    SameOutsideRefl(g, l);
    if w.loss {
      res, sfn := NumberName(dp, w, up);
      if res != FrOk {
        OutsideOnly(g, ch, l, dp.fs.logical);
        return;
      }
    }
    OutsideOnly(g, ch, l, dp.fs.logical);
    ProperWith(w, sfn);
    var nent := 1;
    if longName {
      var len := NameLength(w.lfn, name);
      nent := (len + 25) / 13;
    }
    ghost var l1 := dp.fs.logical;
    res, k, es := AllocStore(dp, w, sfn, nent, nt, name);
    AreaOn(g, ch, dp.chain, l, l1, dp.fs.logical);
    if res == FrOk {
      StoredMade(es0, es, EntriesOn(dp), k, n, w, sfn, nt, name, up);
    }
  }

  /** What the second half of dir_register makes of a table. */
  ghost predicate Stored(es: seq<seq<byte>>, fs: seq<seq<byte>>, gs: seq<seq<byte>>, k: nat, n: nat, w: Wanted,
                         sfn: seq<byte>, nt: byte, name: seq<wchar>)
  {
    && Table(es) && Table(fs) && Table(gs) && Proper(w.(sfn := sfn))
    && Extended(es, fs) && FreeRun(fs, n, k) && SameBut(fs, gs, k, n)
    && Registered(gs, k, n, w.(sfn := sfn), name) && gs[k + n - 1] == ShortNames.ShortEntry(sfn, nt)
  }

  lemma StoredMade(es: seq<seq<byte>>, fs: seq<seq<byte>>, gs: seq<seq<byte>>, k: nat, n: nat, w: Wanted,
                   sfn: seq<byte>, nt: byte, name: seq<wchar>, up: wchar -> wchar)
    requires Stored(es, fs, gs, k, n, w, sfn, nt, name) && Proper(ShortOnly(w, sfn))
    requires w.loss ==> FirstUntaken(es, w, sfn, up) && Scan(es, ShortOnly(w, sfn), up, FRESH, 0) == NotFound
    ensures Made(es, fs, gs, k, n, w, sfn, nt, name, up)
  {
    hide Extended, FreeRun, SameBut, Registered, FirstUntaken, Scan, ShortOnly;
  }

  lemma EntriesAre(dp: Dir)
    ensures EntriesOn(dp) == Entries(dp.fs.logical, dp.fs.geo, dp.chain)
  {
  }

  lemma StoredIs(es: seq<seq<byte>>, fs: seq<seq<byte>>, gs: seq<seq<byte>>, k: nat, n: nat, w: Wanted,
                 sfn: seq<byte>, nt: byte, name: seq<wchar>)
    requires Table(es) && Table(fs) && Table(gs) && Proper(w.(sfn := sfn)) && |sfn| == 11
    requires Extended(es, fs) && FreeRun(fs, n, k) && SameBut(fs, gs, k, n) && n >= 1 && k + n <= |gs|
    requires Registered(gs, k, n, w.(sfn := sfn), name) && gs[k + n - 1] == ShortNames.ShortEntry(sfn, nt)
    ensures Stored(es, fs, gs, k, n, w, sfn, nt, name)
  {
    hide Extended, FreeRun, SameBut, Registered;
  }

  /** The second half of dir_register: room for `nent` entries, and the entries. */
  method AllocStore(dp: Dir, w: Wanted, sfn: seq<byte>, nent: nat, nt: byte, ghost name: seq<wchar>)
    returns (res: FResult, ghost k: nat, ghost es: seq<seq<byte>>)
    requires Usable(dp) && Proper(w) && Capacity(dp.fs.geo, dp.chain) > 0
    requires |sfn| == 11 && sfn[0] != 0 && sfn[0] as int != DDE
    requires Nameable(name) && InBuffer(w.lfn, name) && (nent == 1 || nent == SegmentCount(|name|) + 1)
    modifies dp.fs`disk, dp.fs`logical, dp.fs`fat, dp.fs`wflag, dp.fs`winsect, dp.fs`lastClust, dp.fs`freeClust
    modifies dp.fs`fsiDirty, dp.fs.win
    modifies dp`index, dp`clust, dp`sect, dp`dir, dp`chain
    ensures Usable(dp) && (res in {FrOk, FrDenied} || (res == FrIntErr && !Unbroken(old(dp.fs.fat))))
    ensures res == FrOk ==> dp.AtEntry(k + nent - 1)
    ensures res == FrOk ==> Stored(old(EntriesOn(dp)), es, EntriesOn(dp), k, nent, w, sfn, nt, name)
    ensures Grown(old(dp.fs.fat), dp.fs.fat, old(dp.chain), dp.chain)
    ensures TableOnly(dp.fs.geo, dp.chain, old(dp.fs.logical), dp.fs.logical)
    ensures old(dp.chain) <= dp.chain && (old(dp.chain) == [] <==> dp.chain == [])
    ensures old(FreeExact(dp.fs)) ==> FreeExact(dp.fs)
  {
    hide *;
    assert nent >= 1;
    ghost var g, l, fat, ch, es0 := dp.fs.geo, dp.fs.logical, dp.fs.fat, dp.chain, EntriesOn(dp);
    EntriesAre(dp);
    res, k := DirAlloc(dp, nent);
    ProgressedMeans(g, fat, l, ch, dp.fs.fat, dp.fs.logical, dp.chain);
    es := EntriesOn(dp);
    EntriesAre(dp);
    if res == FrOk {
      ghost var l2 := dp.fs.logical;
      RunFits(es, nent, k);
      ProperWith(w, sfn);
      res := StoreName(dp, w, sfn, nent, nt, k, name);
      StoredIs(es0, es, EntriesOn(dp), k, nent, w, sfn, nt, name);
      TableOnlyOn(g, dp.chain, l, l2, dp.fs.logical);
    }
  }

  lemma ProgressedMeans(g: Geo, fat: seq<nat>, l: seq<Sector>, ch: seq<nat>, fat': seq<nat>, l': seq<Sector>,
                        ch': seq<nat>)
    requires Progressed(g, fat, l, ch, fat', l', ch')
    ensures Grown(fat, fat', ch, ch') && TableOnly(g, ch', l, l') && ch <= ch' && (ch == [] <==> ch' == [])
  {
  }

  lemma AreaOn(g: Geo, ch: seq<nat>, ch': seq<nat>, l: seq<Sector>, l': seq<Sector>, l'': seq<Sector>)
    requires TableOnly(g, ch, l, l') && TableOnly(g, ch', l', l'') && ch <= ch' && (ch == [] <==> ch' == [])
    ensures TableOnly(g, ch', l, l'')
  {
    assert forall c | c in ch :: c in ch' by {
      assert forall i | 0 <= i < |ch| :: ch[i] == ch'[i];
    }
    AreaGrows(g, ch, ch');
    hide InTableArea;
  }

  lemma RunFits(es: seq<seq<byte>>, n: nat, k: nat)
    requires Table(es) && FreeRun(es, n, k)
    ensures n >= 1 && k + n <= |es|
  {
  }

  /** The second half of dir_register: the entries are written. */
  method StoreName(dp: Dir, w: Wanted, sfn: seq<byte>, nent: nat, nt: byte, ghost k: nat, ghost name: seq<wchar>)
    returns (res: FResult)
    requires Usable(dp) && Proper(w) && nent >= 1 && k + nent <= |EntriesOn(dp)| && dp.AtEntry(k + nent - 1)
    requires |sfn| == 11 && sfn[0] != 0 && sfn[0] as int != DDE
    requires Nameable(name) && InBuffer(w.lfn, name) && (nent == 1 || nent == SegmentCount(|name|) + 1)
    modifies dp.fs`disk, dp.fs`logical, dp.fs`fat, dp.fs`wflag, dp.fs`winsect, dp.fs`lastClust, dp.fs`freeClust
    modifies dp.fs`fsiDirty, dp.fs.win
    modifies dp`index, dp`clust, dp`sect, dp`dir, dp`chain
    ensures Usable(dp) && dp.chain == old(dp.chain) && dp.fs.fat == old(dp.fs.fat) && res == FrOk
            && dp.AtEntry(k + nent - 1)
    ensures SameBut(old(EntriesOn(dp)), EntriesOn(dp), k, nent)
    ensures Registered(EntriesOn(dp), k, nent, w.(sfn := sfn), name)
    ensures EntriesOn(dp)[k + nent - 1] == ShortNames.ShortEntry(sfn, nt)
    ensures TableOnly(dp.fs.geo, dp.chain, old(dp.fs.logical), dp.fs.logical)
    ensures old(FreeExact(dp.fs)) ==> FreeExact(dp.fs)
  {
    hide FatGeo, DataGeo, Usable, Dir.AtEntry, FreeExact, Entries, Capacity, SameOutsideFats, SegmentAt;
    hide Nameable, InBuffer, TableOnly, InTableArea, SumSfn, Registered, SegmentCount;
    ghost var g, l, ch, es := dp.fs.geo, dp.fs.logical, dp.chain, EntriesOn(dp);
    SameOutsideRefl(g, l);
    OutsideOnly(g, ch, l, l);
    ghost var sum := SumSfn(sfn);
    IndexOf(dp, k + nent - 1);
    CountWithin(g, ch, k);
    res := FrOk;
    if nent > 1 {
      res := SetIndex(dp, dp.index - (nent - 1));
      var s := Sum(sfn);
      res := StoreLongName(dp, w, s, nent - 1, k, name);
    }
    ghost var m, fs := dp.fs.logical, EntriesOn(dp);
    ghost var e := StoreShort(dp, sfn, nt, k + nent - 1);
    TableOnlyOn(g, ch, l, m, dp.fs.logical);
    ShortStored(fs, EntriesOn(dp), k, nent, w.(sfn := sfn), name, nt, e);
  }

  lemma CountWithin(g: Geo, ch: seq<nat>, k: nat)
    requires k < EntryCount(g, ch)
    ensures k < Capacity(g, ch) && k < 0x1_0000
  {
  }

  lemma ShortStored(fs: seq<seq<byte>>, gs: seq<seq<byte>>, k: nat, n: nat, w: Wanted, name: seq<wchar>, nt: byte,
                    e: seq<byte>)
    requires Table(fs) && Table(gs) && Proper(w) && n >= 1 && k + n <= |fs| && EntrySet(fs, gs, k + n - 1, e)
             && e == ShortNames.ShortEntry(w.sfn, nt)
    requires n > 1 ==> Nameable(name) && n - 1 == SegmentCount(|name|) && InBuffer(w.lfn, name)
    requires n > 1 ==> forall i | k <= i < k + n - 1 :: SegmentAt(fs[i], 0, name, k + n - 1 - i, SumSfn(w.sfn))
    ensures Registered(gs, k, n, w, name) && gs[k + n - 1] == ShortNames.ShortEntry(w.sfn, nt)
  {
    hide SegmentAt, SumSfn, Nameable, InBuffer;
    assert e[..11] == w.sfn && e[11] == 0;
  }

  /** Entry `at` is new in `gs`, has the 8.3 form `sfn`, and took a blank place; entries in use are as they were. */
  ghost predicate NewEntry(es: seq<seq<byte>>, gs: seq<seq<byte>>, at: nat, sfn: seq<byte>)
    requires Table(es) && Table(gs)
  {
    && |es| <= |gs| && at < |gs| && gs[at][..11] == sfn
    && (at < |es| ==> Blank(es[at]))
    && forall i | 0 <= i < |es| && !Blank(es[i]) :: gs[i] == es[i]
  }

  /** The promise of dir_find and dir_register: on a table whose zero entries are at its end, a name of fewer than 255
      characters that was not found, and then was registered, is found, at its new short entry; what was in use before
      is as it was. The same search finds it, and so does a search for its 8.3 form alone, numbered or not, which found
      nothing before. */
  method RegisterThenFind(dp: Dir, w: Wanted, longName: bool, nt: byte, up: wchar -> wchar, ghost name: seq<wchar>)
    returns (found: FResult, made: FResult, numbered: FResult, again: FResult, sfn: seq<byte>, ghost at: nat)
    requires Usable(dp) && Proper(w) && Capacity(dp.fs.geo, dp.chain) > 0 && CaseMap(up) && w.withLfn
    requires Nameable(name) && |name| < MAX_LFN && InBuffer(w.lfn, name) && (w.loss ==> longName)
             && ZeroTail(EntriesOn(dp))
    modifies dp.fs`disk, dp.fs`logical, dp.fs`fat, dp.fs`wflag, dp.fs`winsect, dp.fs`lastClust, dp.fs`freeClust
    modifies dp.fs`fsiDirty, dp.fs.win, dp`index, dp`clust, dp`sect, dp`dir, dp`chain
    ensures found == FrNoFile && made == FrOk ==>
              && numbered == again == FrOk && dp.AtEntry(at)
              && Findable(old(EntriesOn(dp)), EntriesOn(dp), w, sfn, nt, up, at)
    ensures Usable(dp) && |sfn| == 11 && (!w.loss ==> sfn == w.sfn)
  {
    hide *;
    found, at := FrNoFile, 0;
    ghost var es := EntriesOn(dp);
    var idx;
    found, idx := DirFind(dp, w, up);
    made, numbered, again, sfn := FrDenied, FrNoFile, FrNoFile, w.sfn;
    SfnLength(w);
    if found == FrNoFile {
      made, sfn, at := RegisterMissing(dp, w, longName, nt, up, name);
      if made == FrOk {
        numbered, again := FindBoth(dp, w, sfn, up, es, nt, at);
      }
    }
  }

  lemma SfnLength(w: Wanted)
    requires Proper(w)
    ensures |w.sfn| == 11
  {
  }

  /** A name that is not there is registered: what the searches for it end with then. */
  method RegisterMissing(dp: Dir, w: Wanted, longName: bool, nt: byte, up: wchar -> wchar, ghost name: seq<wchar>)
    returns (made: FResult, sfn: seq<byte>, ghost at: nat)
    requires Usable(dp) && Proper(w) && Capacity(dp.fs.geo, dp.chain) > 0 && CaseMap(up) && w.withLfn
    requires Nameable(name) && |name| < MAX_LFN && InBuffer(w.lfn, name) && (w.loss ==> longName)
             && ZeroTail(EntriesOn(dp)) && Scan(EntriesOn(dp), w, up, FRESH, 0) == NotFound
    modifies dp.fs`disk, dp.fs`logical, dp.fs`fat, dp.fs`wflag, dp.fs`winsect, dp.fs`lastClust, dp.fs`freeClust
    modifies dp.fs`fsiDirty, dp.fs.win, dp`index, dp`clust, dp`sect, dp`dir, dp`chain
    ensures Usable(dp) && |sfn| == 11 && (!w.loss ==> sfn == w.sfn)
    ensures made == FrOk ==> dp.AtEntry(at) && Findable(old(EntriesOn(dp)), EntriesOn(dp), w, sfn, nt, up, at)
  {
    hide *;
    NameParts(name);
    ghost var es := EntriesOn(dp);
    ghost var k, n, fs;
    made, sfn, k, n, fs := DirRegister(dp, w, longName, nt, up, name);
    at := 0;
    if made == FrOk {
      at := BothFound(es, fs, EntriesOn(dp), k, n, w, sfn, nt, name, up);
    }
  }

  /** The search ends at entry `at`. */
  ghost predicate FoundAt(es: seq<seq<byte>>, w: Wanted, up: wchar -> wchar, at: nat) {
    Table(es) && Proper(w) && Scan(es, w, up, FRESH, 0).Found? && Scan(es, w, up, FRESH, 0).at == at
  }

  /** From `es` to `gs` entry `at` was made for a name, with the 8.3 form `sfn` that no entry had; the search for the
      name and the one for that form alone end there. */
  ghost predicate Findable(es: seq<seq<byte>>, gs: seq<seq<byte>>, w: Wanted, sfn: seq<byte>, nt: byte,
                           up: wchar -> wchar, at: nat)
  {
    && Table(es) && Table(gs) && |sfn| == 11 && NewEntry(es, gs, at, sfn) && gs[at] == ShortNames.ShortEntry(sfn, nt)
    && Proper(ShortOnly(w, sfn)) && Scan(es, ShortOnly(w, sfn), up, FRESH, 0) == NotFound
    && FoundAt(gs, ShortOnly(w, sfn), up, at) && FoundAt(gs, w, up, at)
  }

  /** Both searches end on the new entry. */
  lemma BothFound(es: seq<seq<byte>>, fs: seq<seq<byte>>, gs: seq<seq<byte>>, k: nat, n: nat, w: Wanted,
                  sfn: seq<byte>, nt: byte, name: seq<wchar>, up: wchar -> wchar)
    returns (at: nat)
    requires Made(es, fs, gs, k, n, w, sfn, nt, name, up)
    requires Proper(w) && CaseMap(up) && w.withLfn && |name| < MAX_LFN && ZeroTail(es)
    requires (w.loss || sfn == w.sfn) && (n == 1 ==> !w.loss)
    requires Scan(es, w, up, FRESH, 0) == NotFound
    ensures at == k + n - 1 && Findable(es, gs, w, sfn, nt, up, at)
  {
    hide Extended, FreeRun, SameBut, Registered, FirstUntaken, Scan, ShortOnly, Proper, CaseMap, ZeroTail, NewEntry;
    hide FoundAt;
    at := FoundAfter(es, fs, gs, k, n, w, sfn, name, up);
    SameSearch(gs, w, w.(sfn := sfn), up, FRESH, 0);
    NotThere(es, w, sfn, up);
    ShortFoundAfter(es, fs, gs, k, n, w, sfn, name, up);
    FoundIs(gs, w, up, at);
    FoundIs(gs, ShortOnly(w, sfn), up, at);
  }

  lemma FoundIs(es: seq<seq<byte>>, w: Wanted, up: wchar -> wchar, at: nat)
    requires Table(es) && Proper(w) && Scan(es, w, up, FRESH, 0).Found? && Scan(es, w, up, FRESH, 0).at == at
    ensures FoundAt(es, w, up, at)
  {
    hide Scan;
  }

  lemma FindableMeans(es: seq<seq<byte>>, gs: seq<seq<byte>>, w: Wanted, sfn: seq<byte>, nt: byte,
                      up: wchar -> wchar, at: nat)
    requires Findable(es, gs, w, sfn, nt, up, at)
    ensures Table(es) && Table(gs) && Proper(w) && Proper(ShortOnly(w, sfn)) && at < |gs|
    ensures NewEntry(es, gs, at, sfn) && FoundAt(gs, w, up, at)
    ensures |sfn| == 11 && gs[at] == ShortNames.ShortEntry(sfn, nt)
    ensures Scan(gs, w, up, FRESH, 0).Found? && Scan(gs, w, up, FRESH, 0).at == at
    ensures Scan(gs, ShortOnly(w, sfn), up, FRESH, 0).Found? && Scan(gs, ShortOnly(w, sfn), up, FRESH, 0).at == at
  {
    hide Scan, ShortOnly;
  }

  /** A search for the 8.3 form alone, and one for the name. */
  method FindBoth(dp: Dir, w: Wanted, sfn: seq<byte>, up: wchar -> wchar, ghost es: seq<seq<byte>>, ghost nt: byte,
                  ghost at: nat)
    returns (numbered: FResult, again: FResult)
    requires Usable(dp) && Findable(es, EntriesOn(dp), w, sfn, nt, up, at)
    modifies dp.fs`disk, dp.fs`logical, dp.fs`fat, dp.fs`wflag, dp.fs`winsect, dp.fs`lastClust, dp.fs`freeClust
    modifies dp.fs`fsiDirty, dp.fs.win, dp`index, dp`clust, dp`sect, dp`dir, dp`chain
    ensures Usable(dp) && numbered == again == FrOk && dp.AtEntry(at) && EntriesOn(dp) == old(EntriesOn(dp))
  {
    hide *;
    FindableMeans(es, EntriesOn(dp), w, sfn, nt, up, at);
    SomeEntries(dp, at);
    var idx;
    numbered, idx := DirFind(dp, ShortOnly(w, sfn), up);
    SomeEntries(dp, at);
    again, idx := DirFind(dp, w, up);
  }

  lemma NameParts(name: seq<wchar>)
    requires Nameable(name)
    ensures SegmentCount(|name|) >= 1
  {
  }

  lemma ProperWith(w: Wanted, sfn: seq<byte>)
    requires Proper(w) && |sfn| == 11 && sfn[0] != 0 && sfn[0] as int != DDE
    ensures Proper(w.(sfn := sfn)) && Proper(ShortOnly(w, sfn))
  {
  }

  /** Nothing had the 8.3 form, be it numbered or not. */
  lemma NotThere(es: seq<seq<byte>>, w: Wanted, sfn: seq<byte>, up: wchar -> wchar)
    requires Table(es) && Proper(w) && Proper(w.(sfn := sfn)) && Scan(es, w, up, FRESH, 0) == NotFound
    requires if w.loss then Scan(es, ShortOnly(w, sfn), up, FRESH, 0) == NotFound
             else sfn == w.sfn
    ensures Scan(es, ShortOnly(w, sfn), up, FRESH, 0) == NotFound
  {
    hide Scan, Judge;
    if !w.loss {
      ShortAbsent(es, w, up, FRESH, FRESH, 0);
    }
  }

  lemma ShortFoundAfter(es: seq<seq<byte>>, fs: seq<seq<byte>>, gs: seq<seq<byte>>, k: nat, n: nat, w: Wanted,
                        sfn: seq<byte>, name: seq<wchar>, up: wchar -> wchar)
    requires Table(es) && Table(fs) && Table(gs) && Proper(w) && Proper(w.(sfn := sfn)) && Proper(ShortOnly(w, sfn))
    requires Extended(es, fs) && FreeRun(fs, n, k) && |gs| == |fs| && ZeroTail(es)
    requires Registered(gs, k, n, w.(sfn := sfn), name) && SameBut(fs, gs, k, n)
    requires Scan(es, ShortOnly(w, sfn), up, FRESH, 0) == NotFound
    ensures var found := Scan(gs, ShortOnly(w, sfn), up, FRESH, 0); found.Found? && found.at == k + n - 1
  {
    hide *;
    ExtendedFacts(es, fs);
    ScanExtended(es, fs, ShortOnly(w, sfn), up, FRESH, 0);
    ShortFound(fs, gs, k, n, w, sfn, name, up);
  }

  lemma SomeEntries(dp: Dir, i: nat)
    requires i < |EntriesOn(dp)|
    ensures Capacity(dp.fs.geo, dp.chain) > 0
  {
  }

  /** What RegisteredFound says of a table that may have grown first. */
  lemma FoundAfter(es: seq<seq<byte>>, fs: seq<seq<byte>>, gs: seq<seq<byte>>, k: nat, n: nat, w: Wanted,
                   sfn: seq<byte>, name: seq<wchar>, up: wchar -> wchar)
    returns (at: nat)
    requires Table(es) && Table(fs) && Table(gs) && Proper(w) && Proper(w.(sfn := sfn)) && CaseMap(up) && w.withLfn
             && |name| < MAX_LFN
    requires Extended(es, fs) && FreeRun(fs, n, k) && |gs| == |fs| && ZeroTail(es) && (w.loss || sfn == w.sfn)
             && (n == 1 ==> !w.loss)
    requires Registered(gs, k, n, w.(sfn := sfn), name) && SameBut(fs, gs, k, n)
    requires Scan(es, w, up, FRESH, 0) == NotFound
    ensures Scan(gs, w.(sfn := sfn), up, FRESH, 0).Found? && Scan(gs, w.(sfn := sfn), up, FRESH, 0).at == at
    ensures at == k + n - 1 && at < |gs| && NewEntry(es, gs, at, sfn)
  {
    hide *;
    ExtendedFacts(es, fs);
    RunFits(fs, n, k);
    ScanExtended(es, fs, w, up, FRESH, 0);
    RegisteredFound(fs, gs, k, n, w, w.(sfn := sfn), name, up);
    StillThere(es, fs, gs, k, n, w.(sfn := sfn), name);
    return k + n - 1;
  }

  /** Entries in use lie outside a run of blank entries. */
  lemma StillThere(es: seq<seq<byte>>, fs: seq<seq<byte>>, gs: seq<seq<byte>>, k: nat, n: nat, w: Wanted,
                   name: seq<wchar>)
    requires Table(es) && Table(fs) && Table(gs) && Proper(w) && Extended(es, fs) && FreeRun(fs, n, k) && |gs| == |fs|
    requires Registered(gs, k, n, w, name) && SameBut(fs, gs, k, n)
    ensures k + n - 1 < |gs| && NewEntry(es, gs, k + n - 1, w.sfn)
  {
    hide SegmentAt, SumSfn, Nameable, InBuffer;
    ExtendedFacts(es, fs);
  }
}
