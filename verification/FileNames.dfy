/** Names of paths in directory tables: create_name, dir_find, dir_register and get_fileinfo together. */
module FileNames {
  import opened Bytes
  import opened Geometry
  import opened DirTable
  import opened Lfn
  import opened DirScan
  import opened DirSearch
  import opened ShortNames
  import opened PathNames

  /** What a segment asks a directory for; `rest` is what the name buffer held before. */
  function WantedFor(r: Created, rest: seq<Lfn.wchar>): Wanted
    requires r.Created? && |r.name| <= MAX_LFN && |rest| == MAX_LFN + 1
  {
    Wanted(r.fn, r.flags.loss, r.name + [0] + rest[|r.name| + 1..], true)
  }

  /** It is a proper search. */
  lemma Asked(cp: CodePage, path: seq<byte>, at: nat, r: Created, rest: seq<Lfn.wchar>)
    requires Path(path) && at < |path| && Tables(cp) && CreatedFrom(cp, path, at, r) && r.Created?
             && |rest| == MAX_LFN + 1
    ensures |r.name| <= MAX_LFN && Nameable(r.name) && Proper(WantedFor(r, rest))
    ensures InBuffer(WantedFor(r, rest).lfn, r.name) && (r.flags.loss ==> r.flags.lfn)
  {
    CreatedMeans(cp, path, at, r);
    FormStarts(cp, r.name);
    var start := SegStart(path, at);
    assert r.flags.loss ==> r.flags.lfn;
    hide *;
    NoFiller(cp, CodesAt(path, start).codes);
    BufferHolds(r, rest);
  }

  lemma BufferHolds(r: Created, rest: seq<Lfn.wchar>)
    requires r.Created? && 1 <= |r.name| <= MAX_LFN && |rest| == MAX_LFN + 1
    requires |r.fn| == 11 && r.fn[0] != 0 && r.fn[0] != DDE
    requires forall i | 0 <= i < |r.name| :: r.name[i] != 0 && r.name[i] != 0xFFFF
    ensures Nameable(r.name) && Proper(WantedFor(r, rest)) && InBuffer(WantedFor(r, rest).lfn, r.name)
  {
  }

  /** The tables give neither zero nor the filler of long names. */
  lemma NoFiller(cp: CodePage, codes: seq<Lfn.wchar>)
    requires Tables(cp) && Allowed(Unicode(cp, codes))
    ensures forall i | 0 <= i < |Stripped(Unicode(cp, codes))| ::
              Stripped(Unicode(cp, codes))[i] != 0 && Stripped(Unicode(cp, codes))[i] != 0xFFFF
    ensures |Stripped(Unicode(cp, codes))| <= MAX_LFN
  {
  }

  /** The search for a segment: create_name, then dir_find. */
  method FindPath(dp: Dir, cp: CodePage, path: seq<byte>, at: nat, rest: seq<Lfn.wchar>)
    returns (res: FResult, r: Created, lfnIdx: nat)
    requires Usable(dp) && Capacity(dp.fs.geo, dp.chain) > 0
    requires Path(path) && at < |path| && Tables(cp) && |rest| == MAX_LFN + 1
    modifies dp.fs`disk, dp.fs`logical, dp.fs`fat, dp.fs`wflag, dp.fs`winsect, dp.fs`lastClust, dp.fs`freeClust
    modifies dp.fs`fsiDirty, dp.fs.win, dp`index, dp`clust, dp`sect, dp`dir, dp`chain
    ensures Usable(dp) && EntriesOn(dp) == old(EntriesOn(dp)) && dp.chain == old(dp.chain)
    ensures CreatedFrom(cp, path, at, r) && (r.Invalid? <==> res == FrInvalidName)
    ensures r.Created? ==> |r.name| <= MAX_LFN && Proper(WantedFor(r, rest))
    ensures r.Created? ==>
              var found := Scan(old(EntriesOn(dp)), WantedFor(r, rest), cp.upper, FRESH, 0);
              if found.Found? then res == FrOk && lfnIdx == found.lfnIdx && dp.AtEntry(found.at) else res == FrNoFile
    ensures r.Created? ==>
              if res == FrOk then FirstTarget(old(EntriesOn(dp)), WantedFor(r, rest), cp.upper, dp.index, lfnIdx)
              else NoTarget(old(EntriesOn(dp)), WantedFor(r, rest), cp.upper)
  {
    hide *;
    r := CreateName(cp, path, at);
    res, lfnIdx := FrInvalidName, NO_LFN;
    if r.Created? {
      Asked(cp, path, at, r, rest);
      res, lfnIdx := DirFind(dp, WantedFor(r, rest), cp.upper);
    }
  }

  /** Names that are equal but for case ask for the same. */
  lemma AskedAlike(cp: CodePage, path: seq<byte>, at: nat, r: Created, other: seq<byte>, at': nat, q: Created,
                   rest: seq<Lfn.wchar>)
    requires Path(path) && at < |path| && CreatedFrom(cp, path, at, r) && r.Created?
    requires Path(other) && at' < |other| && CreatedFrom(cp, other, at', q) && q.Created?
    requires Tables(cp) && |rest| == MAX_LFN + 1 && |r.name| <= MAX_LFN && SameName(r.name, q.name, cp.upper)
    ensures |q.name| <= MAX_LFN
    ensures var w, v := WantedFor(r, rest), WantedFor(q, rest);
            && v.sfn == w.sfn && v.loss == w.loss && v.withLfn == w.withLfn && |v.lfn| == |w.lfn| == MAX_LFN + 1
            && forall p | 0 <= p < |w.lfn| :: cp.upper(w.lfn[p]) == cp.upper(v.lfn[p])
  {
    CreatedMeans(cp, path, at, r);
    CreatedMeans(cp, other, at', q);
    SameForm(cp, r.name, q.name);
    hide *;
    BuffersAlike(r, q, rest, cp.upper);
  }

  lemma BuffersAlike(r: Created, q: Created, rest: seq<Lfn.wchar>, up: Lfn.wchar -> Lfn.wchar)
    requires r.Created? && q.Created? && |rest| == MAX_LFN + 1 && |r.name| <= MAX_LFN && SameName(r.name, q.name, up)
    requires q.fn == r.fn && q.flags.loss == r.flags.loss
    ensures |q.name| <= MAX_LFN
    ensures var w, v := WantedFor(r, rest), WantedFor(q, rest);
            && v.sfn == w.sfn && v.loss == w.loss && v.withLfn == w.withLfn && |v.lfn| == |w.lfn| == MAX_LFN + 1
            && forall p | 0 <= p < |w.lfn| :: up(w.lfn[p]) == up(v.lfn[p])
  {
  }

  lemma NewPlace(es: seq<seq<byte>>, gs: seq<seq<byte>>, e: nat, sfn: seq<byte>)
    requires Table(es) && Table(gs) && NewEntry(es, gs, e, sfn)
    ensures e < |gs|
  {
  }

  lemma UpperIsCaseMap(cp: CodePage)
    requires Tables(cp)
    ensures CaseMap(cp.upper)
  {
  }

  lemma FoundAlike(es: seq<seq<byte>>, w: Wanted, v: Wanted, up: Lfn.wchar -> Lfn.wchar, e: nat)
    requires FoundAt(es, w, up, e) && Proper(v) && CaseMap(up)
    requires v.sfn == w.sfn && v.loss == w.loss && v.withLfn == w.withLfn
    requires forall p | 0 <= p < |w.lfn| :: up(w.lfn[p]) == up(v.lfn[p])
    ensures Table(es) && Scan(es, v, up, FRESH, 0).Found? && Scan(es, v, up, FRESH, 0).at == e
  {
    CaseBlind(es, w, v, up, FRESH, 0);
    hide Scan;
  }

  /** The name of the current entry: get_fileinfo. */
  method NameOfEntry(dp: Dir, ghost e: nat) returns (p: seq<byte>)
    requires Usable(dp) && dp.AtEntry(e) && e < |EntriesOn(dp)|
    modifies dp.fs`disk, dp.fs`wflag, dp.fs`winsect, dp.fs.win
    ensures Usable(dp) && dp.AtEntry(e) && EntriesOn(dp) == old(EntriesOn(dp))
    ensures p == PrintFrom(EntriesOn(dp)[e][..11], FlagsOf(EntriesOn(dp)[e]), 0)
  {
    hide Usable, Dir.AtEntry, Entries, PrintFrom, FlagsOf;
    ShowEntry(dp, e);
    p := GetFileInfo(dp.fs.win[dp.dir..dp.dir + 32]);
  }

  /** dir_register for a segment that was not found, and the name of the entry it made. */
  method RegisterAsked(dp: Dir, cp: CodePage, path: seq<byte>, at: nat, r: Created, rest: seq<Lfn.wchar>)
    returns (made: FResult, shown: seq<byte>, ghost sfn: seq<byte>, ghost e: nat)
    requires Usable(dp) && Capacity(dp.fs.geo, dp.chain) > 0 && ZeroTail(EntriesOn(dp))
    requires Path(path) && at < |path| && Tables(cp) && |rest| == MAX_LFN + 1 && CreatedFrom(cp, path, at, r)
    requires r.Created? && |r.name| < MAX_LFN && Proper(WantedFor(r, rest))
    requires Scan(EntriesOn(dp), WantedFor(r, rest), cp.upper, FRESH, 0) == NotFound
    modifies dp.fs`disk, dp.fs`logical, dp.fs`fat, dp.fs`wflag, dp.fs`winsect, dp.fs`lastClust, dp.fs`freeClust
    modifies dp.fs`fsiDirty, dp.fs.win, dp`index, dp`clust, dp`sect, dp`dir, dp`chain
    ensures Usable(dp)
    ensures made == FrOk ==>
              && NewEntry(old(EntriesOn(dp)), EntriesOn(dp), e, sfn) && (!r.flags.loss ==> sfn == r.fn)
              && FoundAt(EntriesOn(dp), WantedFor(r, rest), cp.upper, e)
              && (!r.flags.loss ==> PrintsAs(cp, path, at, r, shown))
  {
    Asked(cp, path, at, r, rest);
    UpperIsCaseMap(cp);
    EntryPrints(cp, path, at, r);
    hide *;
    shown := [];
    WantedParts(r, rest);
    ghost var es := EntriesOn(dp);
    var form;
    made, form, e := RegisterMissing(dp, WantedFor(r, rest), r.flags.lfn, CaseByte(r.flags), cp.upper, r.name);
    sfn := form;
    if made == FrOk {
      FindableMeans(es, EntriesOn(dp), WantedFor(r, rest), sfn, CaseByte(r.flags), cp.upper, e);
      shown := NameOfEntry(dp, e);
    }
  }

  lemma WantedParts(r: Created, rest: seq<Lfn.wchar>)
    requires r.Created? && |r.name| <= MAX_LFN && |rest| == MAX_LFN + 1
    ensures var w := WantedFor(r, rest); w.withLfn && w.loss == r.flags.loss && w.sfn == r.fn
  {
  }

  /** A name is registered. It has an entry then, in a formerly blank place; the entry prints as the segment that was
      asked for; and every path whose segment differs in letter case only finds it. Names of 255 characters, which no
      search matches, are not registered here. */
  method RegisterPath(dp: Dir, cp: CodePage, path: seq<byte>, at: nat, other: seq<byte>, at': nat,
                      rest: seq<Lfn.wchar>)
    returns (found: FResult, made: FResult, again: FResult, r: Created, q: Created, shown: seq<byte>,
             ghost sfn: seq<byte>, ghost e: nat)
    requires Usable(dp) && Capacity(dp.fs.geo, dp.chain) > 0 && ZeroTail(EntriesOn(dp))
    requires Path(path) && at < |path| && Path(other) && at' < |other| && Tables(cp) && |rest| == MAX_LFN + 1
    modifies dp.fs`disk, dp.fs`logical, dp.fs`fat, dp.fs`wflag, dp.fs`winsect, dp.fs`lastClust, dp.fs`freeClust
    modifies dp.fs`fsiDirty, dp.fs.win, dp`index, dp`clust, dp`sect, dp`dir, dp`chain
    ensures Usable(dp) && CreatedFrom(cp, path, at, r)
    ensures found == FrNoFile ==> r.Created?
    ensures found == FrNoFile && made == FrOk ==>
              && NewEntry(old(EntriesOn(dp)), EntriesOn(dp), e, sfn) && (!r.flags.loss ==> sfn == r.fn)
              && (!r.flags.loss ==> PrintsAs(cp, path, at, r, shown))
              && CreatedFrom(cp, other, at', q)
              && (q.Created? && SameName(r.name, q.name, cp.upper) ==> again == FrOk && dp.AtEntry(e))
  {
    UpperIsCaseMap(cp);
    hide *;
    made, again, q, shown, sfn, e := FrDenied, FrNoFile, Invalid, [], [], 0;
    var idx;
    found, r, idx := FindPath(dp, cp, path, at, rest);
    if found != FrNoFile || |r.name| >= MAX_LFN {
      return;
    }
    ghost var w := WantedFor(r, rest);
    ghost var es := EntriesOn(dp);
    made, shown, sfn, e := RegisterAsked(dp, cp, path, at, r, rest);
    if made == FrOk {
      ghost var gs := EntriesOn(dp);
      NewPlace(es, gs, e, sfn);
      SomeEntries(dp, e);
      again, q, idx := FindPath(dp, cp, other, at', rest);
      if q.Created? && SameName(r.name, q.name, cp.upper) {
        AskedAlike(cp, path, at, r, other, at', q, rest);
        FoundAlike(gs, w, WantedFor(q, rest), cp.upper, e);
      }
    }
  }
}
